/** The invariant of the strongly-connected-component search, stated on
 *  the values of the nodes' search fields (index, lowlink, on-stack), and
 *  the steps of the search that keep it. */
module TarjanSearch {
  import opened Basics
  import opened Graphs
  import opened NodeGenes
  import opened ConnectionGenes
  import opened GeneViews

  /** The connections `C` join nodes of `R`, and `E` are their edges. */
  ghost predicate Wiring(E: set<Edge>, C: seq<ConnectionGene>, R: set<NodeGene>) {
    E == ConnEdges(C) && forall c | c in C :: c.input in R && c.output in R
  }

  /** The components, concatenated. */
  function Flatten(ss: seq<seq<NodeGene>>): seq<NodeGene> {
    if ss == [] then [] else Flatten(ss[..|ss| - 1]) + ss[|ss| - 1]
  }

  /** A sequence back to front: the order in which the top of a stack is popped. */
  function Reversed(s: seq<NodeGene>): (r: seq<NodeGene>)
    ensures |r| == |s| && forall k | 0 <= k < |s| :: r[k] == s[|s| - 1 - k]
  {
    if s == [] then [] else Reversed(s[1..]) + [s[0]]
  }

  /** A strongly connected group: its last node (the root, popped last)
   *  reaches every member and every member reaches it. */
  ghost predicate Component(E: set<Edge>, s: seq<NodeGene>) {
    && s != [] && DistinctIds(s)
    && forall x | x in s :: ReachesOrSame(E, x.id, s[|s| - 1].id) && ReachesOrSame(E, s[|s| - 1].id, x.id)
  }

  /** The search fields of one node; `None` is Java's null. */
  datatype Marks = Marks(index: Option<nat>, lowlink: Option<nat>, onStack: bool)

  function IdxOf(m: Marks): nat {
    if m.index.Some? then m.index.value else 0
  }

  function LowOf(m: Marks): nat {
    if m.lowlink.Some? then m.lowlink.value else 0
  }

  function Min(a: nat, b: nat): nat {
    if a <= b then a else b
  }

  /** Distinct node objects carry distinct ids. */
  ghost predicate IdsApart(M: map<NodeGene, Marks>) {
    forall a, b | a in M && b in M && a != b :: a.id != b.id
  }

  /** Index and lowlink are set together; indices are distinct and below
   *  the counter, and no lowlink exceeds its node's index. */
  ghost predicate Numbered(M: map<NodeGene, Marks>, counter: nat) {
    && (forall n | n in M :: M[n].index.Some? == M[n].lowlink.Some?)
    && (forall n | n in M && M[n].index.Some? :: IdxOf(M[n]) < counter && LowOf(M[n]) <= IdxOf(M[n]))
    && (forall a, b | a in M && b in M && M[a].index.Some? && M[a].index == M[b].index :: a == b)
  }

  /** The lowlink of the `i`-th stacked node is the index of a stacked node
   *  that it reaches. */
  ghost predicate LowOnStack(M: map<NodeGene, Marks>, stack: seq<NodeGene>, E: set<Edge>, i: nat)
    requires i < |stack| && forall j | 0 <= j < |stack| :: stack[j] in M
  {
    exists j | 0 <= j < |stack| :: M[stack[j]].index == M[stack[i]].lowlink && ReachesOrSame(E, stack[i].id, stack[j].id)
  }

  /** The stack holds indexed nodes in increasing index order, exactly the
   *  nodes marked on-stack, each with its lowlink on the stack. */
  ghost predicate Stacked(M: map<NodeGene, Marks>, stack: seq<NodeGene>, E: set<Edge>) {
    && (forall i | 0 <= i < |stack| :: stack[i] in M && M[stack[i]].index.Some?)
    && (forall i, j | 0 <= i < j < |stack| :: IdxOf(M[stack[i]]) < IdxOf(M[stack[j]]))
    && (forall n | n in M :: M[n].onStack <==> n in stack)
    && (forall i | 0 <= i < |stack| :: LowOnStack(M, stack, E, i))
  }

  /** The components found are strongly connected groups of indexed nodes
   *  off the stack, no node in two of them, and every indexed node is on
   *  the stack or in a component. */
  ghost predicate Grouped(M: map<NodeGene, Marks>, sccs: seq<seq<NodeGene>>, E: set<Edge>) {
    && (forall k | 0 <= k < |sccs| :: Component(E, sccs[k]))
    && Distinct(Flatten(sccs))
    && (forall x | x in Flatten(sccs) :: x in M && M[x].index.Some? && !M[x].onStack)
    && (forall n | n in M && M[n].index.Some? :: M[n].onStack || n in Flatten(sccs))
  }

  /** The invariant of the search, on the marks of the nodes. */
  ghost predicate Searching(M: map<NodeGene, Marks>, counter: nat, stack: seq<NodeGene>, sccs: seq<seq<NodeGene>>, E: set<Edge>) {
    IdsApart(M) && Numbered(M, counter) && Stacked(M, stack, E) && Grouped(M, sccs, E)
  }

  /** The marks after popping `popped` off the stack. */
  ghost function Unstack(M: map<NodeGene, Marks>, popped: seq<NodeGene>): map<NodeGene, Marks> {
    map n | n in M :: if n in popped then M[n].(onStack := false) else M[n]
  }

  lemma ReachesOrSameTrans(E: set<Edge>, a: nat, b: nat, c: nat)
    requires ReachesOrSame(E, a, b) && ReachesOrSame(E, b, c)
    ensures ReachesOrSame(E, a, c)
  {
    if a != b && b != c {
      ReachesTrans(E, a, b, c);
    }
  }

  lemma StepReaches(E: set<Edge>, a: nat, b: nat, c: nat)
    requires (a, b) in E && ReachesOrSame(E, b, c)
    ensures Reaches(E, a, c)
  {
    EdgeReaches(E, a, b);
    if b != c {
      ReachesTrans(E, a, b, c);
    }
  }

  lemma FlattenAppend(ss: seq<seq<NodeGene>>, s: seq<NodeGene>)
    ensures Flatten(ss + [s]) == Flatten(ss) + s
  {
    assert (ss + [s])[..|ss|] == ss;
  }

  lemma DistinctConcat<T>(a: seq<T>, b: seq<T>)
    requires Distinct(a) && Distinct(b) && forall x | x in a :: x !in b
    ensures Distinct(a + b)
  {
    forall i, j | 0 <= i < j < |a + b| ensures (a + b)[i] != (a + b)[j] {
      if j < |a| {
        assert (a + b)[i] == a[i] && (a + b)[j] == a[j];
      } else if i >= |a| {
        assert (a + b)[i] == b[i - |a|] && (a + b)[j] == b[j - |a|];
      } else {
        assert a[i] in a && (a + b)[i] == a[i] && (a + b)[j] == b[j - |a|];
      }
    }
  }

  /** Node lists with distinct ids hold distinct objects with distinct ids. */
  lemma DistinctIdsApart(ns: seq<NodeGene>)
    requires DistinctIds(ns)
    ensures Distinct(ns)
    ensures forall a, b | a in ns && b in ns && a != b :: a.id != b.id
  {
    forall a, b | a in ns && b in ns && a != b ensures a.id != b.id {
      var i :| 0 <= i < |ns| && ns[i] == a;
      var j :| 0 <= j < |ns| && ns[j] == b;
      assert i != j;
    }
  }

  /** A stack in increasing index order has no repeats. */
  lemma StackDistinct(M: map<NodeGene, Marks>, stack: seq<NodeGene>, E: set<Edge>)
    requires Stacked(M, stack, E)
    ensures Distinct(stack)
  {
  }

  /** The components count fewer than their nodes exactly when one has two
   *  or more nodes. */
  lemma {:induction false} FewerGroups(ss: seq<seq<NodeGene>>)
    requires forall k | 0 <= k < |ss| :: ss[k] != []
    ensures |ss| <= |Flatten(ss)|
    ensures |ss| < |Flatten(ss)| <==> exists k | 0 <= k < |ss| :: |ss[k]| >= 2
  {
    if ss != [] {
      var init := ss[..|ss| - 1];
      var last := ss[|ss| - 1];
      assert forall k | 0 <= k < |init| :: init[k] == ss[k];
      FewerGroups(init);
      assert |Flatten(ss)| == |Flatten(init)| + |last|;
      if exists k | 0 <= k < |init| :: |init[k]| >= 2 {
        var k :| 0 <= k < |init| && |init[k]| >= 2;
        assert |ss[k]| >= 2;
      } else if |last| >= 2 {
        assert |ss[|ss| - 1]| >= 2;
      } else {
        forall k | 0 <= k < |ss| ensures |ss[k]| < 2 {
          if k < |init| {
            assert ss[k] == init[k];
          }
        }
      }
    }
  }

  /** A component of two or more nodes closes a cycle. */
  lemma ComponentCycle(E: set<Edge>, s: seq<NodeGene>)
    requires Component(E, s) && |s| >= 2
    ensures !Acyclic(E)
  {
    var x, r := s[0], s[|s| - 1];
    assert x in s && x.id != r.id;
    ReachesTrans(E, r.id, x.id, r.id);
  }

  /** Before the search: nothing indexed, nothing stacked, no components. */
  lemma StartSearch(M: map<NodeGene, Marks>, E: set<Edge>)
    requires IdsApart(M) && forall n | n in M :: M[n] == Marks(None, None, false)
    ensures Searching(M, 0, [], [], E)
  {
  }

  /** Visiting an unvisited node keeps the invariant. */
  lemma VisitStep(M: map<NodeGene, Marks>, counter: nat, stack: seq<NodeGene>, sccs: seq<seq<NodeGene>>, E: set<Edge>, v: NodeGene)
    requires Searching(M, counter, stack, sccs, E) && v in M && M[v].index.None?
    ensures Searching(M[v := Marks(Some(counter), Some(counter), true)], counter + 1, stack + [v], sccs, E)
  {
    var M' := M[v := Marks(Some(counter), Some(counter), true)];
    var S' := stack + [v];
    assert v !in stack;
    assert v !in Flatten(sccs);
    forall i | 0 <= i < |S'| ensures LowOnStack(M', S', E, i) {
      if i < |stack| {
        assert LowOnStack(M, stack, E, i);
        var j :| 0 <= j < |stack| && M[stack[j]].index == M[stack[i]].lowlink && ReachesOrSame(E, stack[i].id, stack[j].id);
        assert M'[S'[j]].index == M'[S'[i]].lowlink;
      } else {
        assert M'[S'[i]].index == M'[S'[i]].lowlink;
      }
    }
  }

  /** Two markings that agree on every node's index and on-stack flag;
   *  lowlinks may differ. */
  ghost predicate SameIndexing(M: map<NodeGene, Marks>, M': map<NodeGene, Marks>) {
    M'.Keys == M.Keys && forall n | n in M :: M'[n].index == M[n].index && M'[n].onStack == M[n].onStack
  }

  lemma GroupedTransfer(M: map<NodeGene, Marks>, M': map<NodeGene, Marks>, sccs: seq<seq<NodeGene>>, E: set<Edge>)
    requires Grouped(M, sccs, E) && SameIndexing(M, M')
    ensures Grouped(M', sccs, E)
  {
  }

  /** Positions along the stack and indices are in the same order. */
  lemma StackOrder(M: map<NodeGene, Marks>, S: seq<NodeGene>, E: set<Edge>, a: nat, b: nat)
    requires Stacked(M, S, E) && a < |S| && b < |S|
    ensures a <= b <==> IdxOf(M[S[a]]) <= IdxOf(M[S[b]])
  {
    if a < b {
      assert IdxOf(M[S[a]]) < IdxOf(M[S[b]]);
    } else if b < a {
      assert IdxOf(M[S[b]]) < IdxOf(M[S[a]]);
    }
  }

  lemma ReversedElements(s: seq<NodeGene>)
    ensures forall x :: x in Reversed(s) <==> x in s
  {
    var r := Reversed(s);
    forall x | x in r ensures x in s {
      var k :| 0 <= k < |r| && r[k] == x;
      assert s[|s| - 1 - k] == x;
    }
    forall x | x in s ensures x in r {
      var k :| 0 <= k < |s| && s[k] == x;
      assert r[|s| - 1 - k] == x;
    }
  }

  /** Lowering keeps the stack part of the invariant. */
  lemma LowerStacked(M: map<NodeGene, Marks>, counter: nat, stack: seq<NodeGene>, E: set<Edge>, v: NodeGene, w: NodeGene)
    requires Numbered(M, counter) && Stacked(M, stack, E) && v in M && M[v].onStack && w in M && M[w].index.Some?
    requires (v.id, w.id) in E && (M[w].onStack || LowOf(M[v]) <= LowOf(M[w]))
    ensures Stacked(M[v := M[v].(lowlink := Some(Min(LowOf(M[v]), LowOf(M[w]))))], stack, E)
  {
    var M' := M[v := M[v].(lowlink := Some(Min(LowOf(M[v]), LowOf(M[w]))))];
    assert SameIndexing(M, M');
    forall i | 0 <= i < |stack| ensures LowOnStack(M', stack, E, i) {
      assert LowOnStack(M, stack, E, i);
      if stack[i] == v && LowOf(M[w]) < LowOf(M[v]) {
        var q :| 0 <= q < |stack| && stack[q] == w;
        assert LowOnStack(M, stack, E, q);
        var j :| 0 <= j < |stack| && M[stack[j]].index == M[w].lowlink && ReachesOrSame(E, w.id, stack[j].id);
        StepReaches(E, v.id, w.id, stack[j].id);
        assert M'[stack[j]].index == M'[stack[i]].lowlink;
      } else {
        var j :| 0 <= j < |stack| && M[stack[j]].index == M[stack[i]].lowlink && ReachesOrSame(E, stack[i].id, stack[j].id);
        assert M'[stack[j]].index == M'[stack[i]].lowlink;
      }
    }
  }

  /** Lowering the lowlink of stacked `v` to that of `w`, the target of an
   *  edge from `v`, keeps the invariant when `w` is stacked or the lowlink
   *  does not drop. */
  lemma LowerStep(M: map<NodeGene, Marks>, counter: nat, stack: seq<NodeGene>, sccs: seq<seq<NodeGene>>, E: set<Edge>,
                  v: NodeGene, w: NodeGene)
    requires Searching(M, counter, stack, sccs, E) && v in M && M[v].onStack && w in M && M[w].index.Some?
    requires (v.id, w.id) in E && (M[w].onStack || LowOf(M[v]) <= LowOf(M[w]))
    ensures Searching(Lowered(M, v, w), counter, stack, sccs, E)
  {
    var M' := M[v := M[v].(lowlink := Some(Min(LowOf(M[v]), LowOf(M[w]))))];
    assert SameIndexing(M, M');
    GroupedTransfer(M, M', sccs, E);
    LowerStacked(M, counter, stack, E, v, w);
  }

  /** In a stretch of the stack above a root `S[p]` whose nodes all have a
   *  lowlink at least the root's index and below their own, every node
   *  reaches the root. */
  lemma {:induction false} ReachRoot(M: map<NodeGene, Marks>, counter: nat, S: seq<NodeGene>, E: set<Edge>, p: nat, i: nat)
    requires Numbered(M, counter) && Stacked(M, S, E) && p <= i < |S|
    requires forall k | p < k < |S| :: IdxOf(M[S[p]]) <= LowOf(M[S[k]]) < IdxOf(M[S[k]])
    ensures ReachesOrSame(E, S[i].id, S[p].id)
    decreases i
  {
    if i > p {
      assert LowOnStack(M, S, E, i);
      var j :| 0 <= j < |S| && M[S[j]].index == M[S[i]].lowlink && ReachesOrSame(E, S[i].id, S[j].id);
      assert IdxOf(M[S[j]]) == LowOf(M[S[i]]);
      StackOrder(M, S, E, p, j);
      StackOrder(M, S, E, i, j);
      ReachRoot(M, counter, S, E, p, j);
      ReachesOrSameTrans(E, S[i].id, S[j].id, S[p].id);
    }
  }

  /** Popping down to position `p` leaves on the stack exactly the nodes
   *  below `p`. */
  lemma PopFlags(M: map<NodeGene, Marks>, S: seq<NodeGene>, E: set<Edge>, p: nat)
    requires Stacked(M, S, E) && p <= |S|
    ensures forall n | n in Unstack(M, S[p..]) :: Unstack(M, S[p..])[n].onStack <==> n in S[..p]
  {
    var M' := Unstack(M, S[p..]);
    var T := S[..p];
    StackDistinct(M, S, E);
    forall n | n in M' ensures M'[n].onStack <==> n in T {
      if n in S[p..] {
        var k0 :| 0 <= k0 < |S| - p && S[p..][k0] == n;
        assert S[p + k0] == n;
        assert forall k | 0 <= k < p :: T[k] != n;
      } else if n in S {
        var k :| 0 <= k < |S| && S[k] == n;
        assert T[k] == n;
      }
    }
  }

  /** Popping down to position `p` keeps the lowlink of every node below
   *  `p` on the stack. */
  lemma PopLows(M: map<NodeGene, Marks>, counter: nat, S: seq<NodeGene>, E: set<Edge>, p: nat)
    requires Numbered(M, counter) && Stacked(M, S, E) && p <= |S|
    ensures forall i | 0 <= i < p :: S[..p][i] in Unstack(M, S[p..])
    ensures forall i | 0 <= i < p :: LowOnStack(Unstack(M, S[p..]), S[..p], E, i)
  {
    var M' := Unstack(M, S[p..]);
    var T := S[..p];
    forall i | 0 <= i < |T| ensures LowOnStack(M', T, E, i) {
      assert LowOnStack(M, S, E, i);
      var j :| 0 <= j < |S| && M[S[j]].index == M[S[i]].lowlink && ReachesOrSame(E, S[i].id, S[j].id);
      StackOrder(M, S, E, j, i);
      assert M'[T[j]].index == M'[T[i]].lowlink;
    }
  }

  /** Popping down to position `p` keeps the numbering and the stack part
   *  of the invariant. */
  lemma PopStacked(M: map<NodeGene, Marks>, counter: nat, S: seq<NodeGene>, E: set<Edge>, p: nat)
    requires IdsApart(M) && Numbered(M, counter) && Stacked(M, S, E) && p <= |S|
    ensures IdsApart(Unstack(M, S[p..])) && Numbered(Unstack(M, S[p..]), counter)
    ensures Stacked(Unstack(M, S[p..]), S[..p], E)
  {
    PopFlags(M, S, E, p);
    PopLows(M, counter, S, E, p);
  }

  /** The nodes above a root, with distinct ids, that it reaches and that
   *  reach it form a component, popped root last. */
  lemma PoppedComponent(S: seq<NodeGene>, E: set<Edge>, p: nat)
    requires p < |S| && forall a, b | p <= a < b < |S| :: S[a].id != S[b].id
    requires forall i | p <= i < |S| :: ReachesOrSame(E, S[i].id, S[p].id) && ReachesOrSame(E, S[p].id, S[i].id)
    ensures Component(E, Reversed(S[p..]))
  {
    var G := Reversed(S[p..]);
    assert G[|G| - 1] == S[p];
    forall a, b | 0 <= a < b < |G| ensures G[a].id != G[b].id {
      assert G[a] == S[|S| - 1 - a] && G[b] == S[|S| - 1 - b];
    }
    ReversedElements(S[p..]);
    forall x | x in G ensures ReachesOrSame(E, x.id, S[p].id) && ReachesOrSame(E, S[p].id, x.id) {
      var k0 :| 0 <= k0 < |S| - p && S[p..][k0] == x;
      assert S[p + k0] == x;
    }
  }

  /** Popping the nodes above a root into a new component keeps the
   *  component part of the invariant. */
  lemma PopGrouped(M: map<NodeGene, Marks>, counter: nat, S: seq<NodeGene>, sccs: seq<seq<NodeGene>>, E: set<Edge>, p: nat)
    requires Searching(M, counter, S, sccs, E) && p < |S| && Component(E, Reversed(S[p..]))
    ensures Grouped(Unstack(M, S[p..]), sccs + [Reversed(S[p..])], E)
  {
    var M' := Unstack(M, S[p..]);
    var G := Reversed(S[p..]);
    ReversedElements(S[p..]);
    FlattenAppend(sccs, G);
    assert forall k | p <= k < |S| :: S[p..][k - p] == S[k];
    forall k | 0 <= k < |sccs + [G]| ensures Component(E, (sccs + [G])[k]) {
      if k < |sccs| {
        assert (sccs + [G])[k] == sccs[k];
      }
    }
    forall x | x in Flatten(sccs) ensures x !in G {
      assert x !in S;
    }
    DistinctIdsApart(G);
    DistinctConcat(Flatten(sccs), G);
  }

  /** Popping the stack down to a root `S[p]` (lowlink equal to index) whose
   *  stretch above keeps lowlinks between the root's index and their own,
   *  all reached from the root, keeps the invariant. */
  lemma PopStep(M: map<NodeGene, Marks>, counter: nat, S: seq<NodeGene>, sccs: seq<seq<NodeGene>>, E: set<Edge>, p: nat)
    requires Searching(M, counter, S, sccs, E) && p < |S|
    requires LowOf(M[S[p]]) == IdxOf(M[S[p]])
    requires forall i | p < i < |S| :: IdxOf(M[S[p]]) <= LowOf(M[S[i]]) < IdxOf(M[S[i]]) && ReachesOrSame(E, S[p].id, S[i].id)
    ensures Searching(Unstack(M, S[p..]), counter, S[..p], sccs + [Reversed(S[p..])], E)
  {
    forall i | p <= i < |S| ensures ReachesOrSame(E, S[i].id, S[p].id) && ReachesOrSame(E, S[p].id, S[i].id) {
      ReachRoot(M, counter, S, E, p, i);
    }
    StackDistinct(M, S, E);
    assert forall a, b | p <= a < b < |S| :: S[a] != S[b] && S[a] in M && S[b] in M;
    PoppedComponent(S, E, p);
    PopStacked(M, counter, S, E, p);
    PopGrouped(M, counter, S, sccs, E, p);
  }

  /** Nodes indexed in `M0` keep their index and lowlink in `M`. */
  ghost predicate KeepsVisited(M0: map<NodeGene, Marks>, M: map<NodeGene, Marks>) {
    forall n | n in M0 && M0[n].index.Some? :: n in M && M[n].index == M0[n].index && M[n].lowlink == M0[n].lowlink
  }

  /** `v`, visited with index `i0`, sits at position `p` of the stack, and
   *  every node above it was visited later, is reached from `v`, and has a
   *  lowlink below its own index and no lower than `v`'s. */
  ghost predicate Above(M: map<NodeGene, Marks>, S: seq<NodeGene>, E: set<Edge>, v: NodeGene, p: nat, i0: nat) {
    && p < |S| && S[p] == v && v in M && M[v].index == Some(i0)
    && forall i | p < i < |S| ::
      && S[i] in M && i0 < IdxOf(M[S[i]]) && LowOf(M[v]) <= LowOf(M[S[i]]) < IdxOf(M[S[i]])
      && ReachesOrSame(E, v.id, S[i].id)
  }

  /** Lowering the lowlink of `v` keeps the stack above it in order. */
  lemma AboveLower(M: map<NodeGene, Marks>, S: seq<NodeGene>, E: set<Edge>, v: NodeGene, p: nat, i0: nat, low: nat)
    requires Above(M, S, E, v, p, i0) && low <= LowOf(M[v])
    ensures Above(M[v := M[v].(lowlink := Some(low))], S, E, v, p, i0)
  {
    var M' := M[v := M[v].(lowlink := Some(low))];
    forall i | p < i < |S| ensures S[i] != v {
      assert i0 < IdxOf(M[S[i]]);
    }
  }

  /** After the search from `w`, the target of an edge from `v` and still
   *  unvisited when the edge was followed, lowering `v`'s lowlink to `w`'s
   *  is allowed and keeps the stack above `v` in order. */
  lemma FollowAbove(M1: map<NodeGene, Marks>, S1: seq<NodeGene>, M2: map<NodeGene, Marks>, S2: seq<NodeGene>, E: set<Edge>,
                   v: NodeGene, w: NodeGene, p: nat, i0: nat, c1: nat)
    requires Above(M1, S1, E, v, p, i0) && LowOf(M1[v]) <= i0 < c1 && (v.id, w.id) in E
    requires S1 <= S2 && KeepsVisited(M1, M2) && w in M2 && M2[w].index == Some(c1)
    requires M2[w].onStack ==> Above(M2, S2, E, w, |S1|, c1) && LowOf(M2[w]) < IdxOf(M2[w])
    requires !M2[w].onStack ==> S2 == S1 && LowOf(M2[w]) == IdxOf(M2[w])
    ensures M2[w].onStack || LowOf(M2[v]) <= LowOf(M2[w])
    ensures Above(M2[v := M2[v].(lowlink := Some(Min(LowOf(M2[v]), LowOf(M2[w]))))], S2, E, v, p, i0)
  {
    var low := Min(LowOf(M2[v]), LowOf(M2[w]));
    assert M2[v] == M1[v].(onStack := M2[v].onStack) by {
      assert M2[v].index == M1[v].index && M2[v].lowlink == M1[v].lowlink;
    }
    forall i | p < i < |S2| ensures
      && S2[i] in M2 && i0 < IdxOf(M2[S2[i]]) && low <= LowOf(M2[S2[i]]) < IdxOf(M2[S2[i]])
      && ReachesOrSame(E, v.id, S2[i].id)
    {
      if i < |S1| {
        assert S2[i] == S1[i] && M1[S1[i]].index.Some?;
      } else if i == |S1| {
        EdgeReaches(E, v.id, w.id);
      } else {
        StepReaches(E, v.id, w.id, S2[i].id);
      }
    }
    var M3 := M2[v := M2[v].(lowlink := Some(low))];
    forall i | p < i < |S2| ensures S2[i] != v {
      assert i0 < IdxOf(M2[S2[i]]);
    }
  }

  /** The nodes of `M` still without an index. */
  ghost function Unindexed(M: map<NodeGene, Marks>): set<NodeGene> {
    set n | n in M && M[n].index.None?
  }

  /** Popping changes only on-stack flags. */
  lemma UnstackKeeps(M: map<NodeGene, Marks>, popped: seq<NodeGene>)
    ensures Unstack(M, popped).Keys == M.Keys && KeepsVisited(M, Unstack(M, popped))
    ensures Unindexed(Unstack(M, popped)) == Unindexed(M)
  {
  }

  /** A visited node is a root exactly when its lowlink equals its index;
   *  otherwise its lowlink is smaller. */
  lemma RootTest(M: map<NodeGene, Marks>, counter: nat, n: NodeGene)
    requires Numbered(M, counter) && n in M && M[n].index.Some?
    ensures M[n].lowlink == M[n].index <==> LowOf(M[n]) == IdxOf(M[n])
    ensures LowOf(M[n]) <= IdxOf(M[n])
  {
  }

  /** One pop: the marks with one more node off the stack. */
  lemma UnstackStep(M: map<NodeGene, Marks>, S: seq<NodeGene>, k: nat)
    requires 0 < k <= |S| && Distinct(S) && S[k - 1] in M
    ensures Unstack(M, S[k - 1..]) == Unstack(M, S[k..])[S[k - 1] := Unstack(M, S[k..])[S[k - 1]].(onStack := false)]
    ensures Reversed(S[k - 1..]) == Reversed(S[k..]) + [S[k - 1]]
  {
    assert S[k - 1..][1..] == S[k..];
    assert S[k - 1] !in S[k..];
    forall n | n in M ensures n in S[k - 1..] <==> n in S[k..] || n == S[k - 1] {
      if n in S[k - 1..] && n != S[k - 1] {
        var j :| k - 1 <= j < |S| && S[j] == n;
        assert S[k..][j - k] == n;
      }
    }
  }

  /** The bottom node of the stack is a root. */
  lemma BottomIsRoot(M: map<NodeGene, Marks>, counter: nat, S: seq<NodeGene>, sccs: seq<seq<NodeGene>>, E: set<Edge>)
    requires Searching(M, counter, S, sccs, E) && S != []
    ensures LowOf(M[S[0]]) == IdxOf(M[S[0]])
  {
    assert LowOnStack(M, S, E, 0);
    var j :| 0 <= j < |S| && M[S[j]].index == M[S[0]].lowlink && ReachesOrSame(E, S[0].id, S[j].id);
    if j > 0 {
      assert IdxOf(M[S[0]]) < IdxOf(M[S[j]]);
    }
  }

  /** After the search with an empty stack and every node indexed, the
   *  components partition the nodes; there are fewer components than
   *  nodes exactly when one of them has two or more nodes, and then the
   *  graph has a cycle. */
  lemma Conclude(N: seq<NodeGene>, M: map<NodeGene, Marks>, counter: nat, sccs: seq<seq<NodeGene>>, E: set<Edge>)
    requires Searching(M, counter, [], sccs, E) && Distinct(N)
    requires Indexed(M, N)
    requires forall n | n in M :: n in N
    ensures forall n | n in N :: n in Flatten(sccs)
    ensures forall x | x in Flatten(sccs) :: x in N
    ensures |Flatten(sccs)| == |N|
    ensures |sccs| < |N| <==> exists k | 0 <= k < |sccs| :: |sccs[k]| >= 2
    ensures (exists k | 0 <= k < |sccs| :: |sccs[k]| >= 2) ==> !Acyclic(E)
  {
    var F := Flatten(sccs);
    assert Elements(F) == Elements(N);
    DistinctCard(F);
    DistinctCard(N);
    FewerGroups(sccs);
    if exists k | 0 <= k < |sccs| :: |sccs[k]| >= 2 {
      var k :| 0 <= k < |sccs| && |sccs[k]| >= 2;
      ComponentCycle(E, sccs[k]);
    }
  }

  /** The marks mirror the nodes, the edges are the connections', and the
   *  search is in a consistent state. */
  ghost predicate Tracking(M: map<NodeGene, Marks>, R: set<NodeGene>, E: set<Edge>, C: seq<ConnectionGene>,
                           counter: nat, S: seq<NodeGene>, sccs: seq<seq<NodeGene>>)
  {
    Wiring(E, C, R) && M.Keys == R && Searching(M, counter, S, sccs, E)
  }

  /** From `M0` to `M` the search only went forward: the same nodes, no
   *  node newly unvisited, visited nodes keep their numbers, and the
   *  stack, the components and the counter grew. */
  ghost predicate Grown(M0: map<NodeGene, Marks>, M: map<NodeGene, Marks>, S0: seq<NodeGene>, S: seq<NodeGene>,
                        C0: seq<seq<NodeGene>>, C: seq<seq<NodeGene>>, c0: nat, c: nat)
  {
    M.Keys == M0.Keys && Unindexed(M) <= Unindexed(M0) && KeepsVisited(M0, M) && S0 <= S && C0 <= C && c0 <= c
  }

  /** The search from `v`, started at stack `S0` and counter `c0`, is done:
   *  `v` got index `c0`, and either it is still on the stack with a lower
   *  lowlink and everything above it in order, or it was a root and the
   *  stack is back to `S0`. */
  ghost predicate Searched(M0: map<NodeGene, Marks>, M: map<NodeGene, Marks>, S0: seq<NodeGene>, S: seq<NodeGene>,
                           C0: seq<seq<NodeGene>>, C: seq<seq<NodeGene>>, c0: nat, c: nat, E: set<Edge>, v: NodeGene)
  {
    && Grown(M0, M, S0, S, C0, C, c0, c) && c0 < c && v in M && M[v].index == Some(c0)
    && (M[v].onStack ==> Above(M, S, E, v, |S0|, c0) && LowOf(M[v]) < IdxOf(M[v]))
    && (!M[v].onStack ==> S == S0 && LowOf(M[v]) == IdxOf(M[v]))
  }

  /** While the edges leaving `v` are followed: `v` stays at position
   *  `|S0|` with everything above it in order. */
  ghost predicate Exploring(M0: map<NodeGene, Marks>, M: map<NodeGene, Marks>, S0: seq<NodeGene>, S: seq<NodeGene>,
                            C0: seq<seq<NodeGene>>, C: seq<seq<NodeGene>>, c0: nat, c: nat, E: set<Edge>, v: NodeGene)
  {
    && Grown(M0, M, S0, S, C0, C, c0, c) && c0 < c && Unindexed(M) < Unindexed(M0)
    && Above(M, S, E, v, |S0|, c0) && v in M0 && M0[v].index.None?
  }

  /** The marks with the lowlink of `v` lowered to that of `w` when
   *  smaller. */
  ghost function Lowered(M: map<NodeGene, Marks>, v: NodeGene, w: NodeGene): map<NodeGene, Marks>
    requires v in M && w in M
  {
    M[v := M[v].(lowlink := Some(Min(LowOf(M[v]), LowOf(M[w]))))]
  }

  /** Following an edge from `v` to `w` that was already visited keeps the
   *  exploration of `v` going. */
  lemma ExploreLower(M0: map<NodeGene, Marks>, M: map<NodeGene, Marks>, S0: seq<NodeGene>, S: seq<NodeGene>,
                     C0: seq<seq<NodeGene>>, C: seq<seq<NodeGene>>, c0: nat, c: nat, E: set<Edge>, v: NodeGene, w: NodeGene)
    requires Exploring(M0, M, S0, S, C0, C, c0, c, E, v) && w in M
    ensures Exploring(M0, Lowered(M, v, w), S0, S, C0, C, c0, c, E, v)
  {
    AboveLower(M, S, E, v, |S0|, c0, Min(LowOf(M[v]), LowOf(M[w])));
    var M' := Lowered(M, v, w);
    assert Unindexed(M') == Unindexed(M);
  }

  /** After the search from `w`, the target of an edge from `v` and
   *  unvisited when the edge was followed, lowering `v`'s lowlink to
   *  `w`'s is allowed and keeps the exploration of `v` going. */
  lemma FollowStep(M0: map<NodeGene, Marks>, S0: seq<NodeGene>, C0: seq<seq<NodeGene>>, c0: nat,
                   M1: map<NodeGene, Marks>, S1: seq<NodeGene>, C1: seq<seq<NodeGene>>, c1: nat,
                   M2: map<NodeGene, Marks>, S2: seq<NodeGene>, C2: seq<seq<NodeGene>>, c2: nat,
                   E: set<Edge>, v: NodeGene, w: NodeGene)
    requires Exploring(M0, M1, S0, S1, C0, C1, c0, c1, E, v) && Numbered(M1, c1) && (v.id, w.id) in E
    requires w in M1 && M1[w].index.None? && Searched(M1, M2, S1, S2, C1, C2, c1, c2, E, w) && Stacked(M2, S2, E)
    ensures v in M2 && M2[v].onStack && w in M2 && M2[w].index.Some? && (M2[w].onStack || LowOf(M2[v]) <= LowOf(M2[w]))
    ensures Exploring(M0, Lowered(M2, v, w), S0, S2, C0, C2, c0, c2, E, v)
  {
    FollowAbove(M1, S1, M2, S2, E, v, w, |S0|, c0, c1);
    assert S2[|S0|] == v;
    var M3 := Lowered(M2, v, w);
    assert Unindexed(M3) == Unindexed(M2);
    assert v in Unindexed(M0) && v !in Unindexed(M3);
    assert KeepsVisited(M0, M3) by {
      forall n | n in M0 && M0[n].index.Some? ensures n in M3 && M3[n].index == M0[n].index && M3[n].lowlink == M0[n].lowlink {
        assert n != v;
      }
    }
  }

  /** Once its edges are followed, a root `v` pops its component and the
   *  search from `v` is done. */
  lemma RootDone(M0: map<NodeGene, Marks>, M: map<NodeGene, Marks>, S0: seq<NodeGene>, S: seq<NodeGene>,
                 C0: seq<seq<NodeGene>>, C: seq<seq<NodeGene>>, c0: nat, c: nat, E: set<Edge>, v: NodeGene)
    requires Exploring(M0, M, S0, S, C0, C, c0, c, E, v) && LowOf(M[v]) == IdxOf(M[v])
    ensures Searched(M0, Unstack(M, S[|S0|..]), S0, S[..|S0|], C0, C + [Reversed(S[|S0|..])], c0, c, E, v)
  {
    UnstackKeeps(M, S[|S0|..]);
    assert S[|S0|..][0] == v;
    var M' := Unstack(M, S[|S0|..]);
    assert M'[v] == M[v].(onStack := false);
  }

  /** Once its edges are followed, a node `v` that is not a root stays on
   *  the stack, above some other node, and the search from `v` is done. */
  lemma NonRootDone(M0: map<NodeGene, Marks>, M: map<NodeGene, Marks>, S0: seq<NodeGene>, S: seq<NodeGene>,
                    C0: seq<seq<NodeGene>>, C: seq<seq<NodeGene>>, c0: nat, c: nat, E: set<Edge>, v: NodeGene)
    requires Exploring(M0, M, S0, S, C0, C, c0, c, E, v) && Searching(M, c, S, C, E) && LowOf(M[v]) != IdxOf(M[v])
    ensures Searched(M0, M, S0, S, C0, C, c0, c, E, v) && S0 != []
  {
    assert M[v].onStack && LowOf(M[v]) <= IdxOf(M[v]);
    if S0 == [] {
      BottomIsRoot(M, c, S, C, E);
    }
  }

  /** Visiting `v` starts its exploration. */
  lemma VisitExplore(M0: map<NodeGene, Marks>, S0: seq<NodeGene>, C0: seq<seq<NodeGene>>, c0: nat, E: set<Edge>, v: NodeGene)
    requires v in M0 && M0[v].index.None?
    ensures Exploring(M0, M0[v := Marks(Some(c0), Some(c0), true)], S0, S0 + [v], C0, C0, c0, c0 + 1, E, v)
  {
    var M := M0[v := Marks(Some(c0), Some(c0), true)];
    assert Unindexed(M) == Unindexed(M0) - {v};
  }

  /** Every node of `N` has an index in `M`. */
  ghost predicate Indexed(M: map<NodeGene, Marks>, N: seq<NodeGene>) {
    forall n | n in N :: n in M && M[n].index.Some?
  }

  /** A search that keeps the visited nodes visited and has visited the
   *  `i`-th node has visited the first `i + 1` nodes. */
  lemma KeepsIndexed(M: map<NodeGene, Marks>, M': map<NodeGene, Marks>, N: seq<NodeGene>, i: nat)
    requires i < |N| && Indexed(M, N[..i]) && KeepsVisited(M, M') && N[i] in M' && M'[N[i]].index.Some?
    ensures Indexed(M', N[..i + 1])
  {
    assert N[..i + 1] == N[..i] + [N[i]];
  }
}
