/** Directed graphs over node ids, given as sets of (from, to) edges:
 *  reachability along non-empty paths, acyclicity, and the facts the
 *  cycle guard of structural mutation and crossover relies on. */
module Graphs {

  type Edge = (nat, nat)

  /** `p` walks along edges of `E` and takes at least one step. */
  ghost predicate IsPath(E: set<Edge>, p: seq<nat>) {
    |p| >= 2 && forall i :: 0 <= i < |p| - 1 ==> (p[i], p[i + 1]) in E
  }

  /** There is a path of one or more edges from `a` to `b`. */
  ghost predicate Reaches(E: set<Edge>, a: nat, b: nat) {
    exists p :: IsPath(E, p) && p[0] == a && p[|p| - 1] == b
  }

  ghost predicate ReachesOrSame(E: set<Edge>, a: nat, b: nat) {
    a == b || Reaches(E, a, b)
  }

  /** No node reaches itself; in particular there is no self-edge. */
  ghost predicate Acyclic(E: set<Edge>) {
    forall a :: !Reaches(E, a, a)
  }

  lemma EdgeReaches(E: set<Edge>, a: nat, b: nat)
    requires (a, b) in E
    ensures Reaches(E, a, b)
  {
    assert IsPath(E, [a, b]);
  }

  lemma ReachesThenEdge(E: set<Edge>, a: nat, b: nat, c: nat)
    requires Reaches(E, a, b) && (b, c) in E
    ensures Reaches(E, a, c)
  {
    var p :| IsPath(E, p) && p[0] == a && p[|p| - 1] == b;
    var q := p + [c];
    assert IsPath(E, q);
  }

  lemma ReachesTrans(E: set<Edge>, a: nat, b: nat, c: nat)
    requires Reaches(E, a, b) && Reaches(E, b, c)
    ensures Reaches(E, a, c)
  {
    var p :| IsPath(E, p) && p[0] == a && p[|p| - 1] == b;
    var q :| IsPath(E, q) && q[0] == b && q[|q| - 1] == c;
    var r := p + q[1..];
    forall i | 0 <= i < |r| - 1 ensures (r[i], r[i + 1]) in E {
      if i < |p| - 1 {
        assert r[i] == p[i] && r[i + 1] == p[i + 1];
      } else {
        var j := i - (|p| - 1);
        assert r[i] == q[j] && r[i + 1] == q[j + 1];
      }
    }
    assert IsPath(E, r);
  }

  /** Reachability is monotone in the edge set. */
  lemma ReachesMono(E: set<Edge>, F: set<Edge>, a: nat, b: nat)
    requires E <= F && Reaches(E, a, b)
    ensures Reaches(F, a, b)
  {
    var p :| IsPath(E, p) && p[0] == a && p[|p| - 1] == b;
    assert IsPath(F, p);
  }

  /** A sub-graph of an acyclic graph is acyclic. */
  lemma SubgraphAcyclic(E: set<Edge>, F: set<Edge>)
    requires E <= F && Acyclic(F)
    ensures Acyclic(E)
  {
    forall a ensures !Reaches(E, a, a) {
      if Reaches(E, a, a) {
        ReachesMono(E, F, a, a);
      }
    }
  }

  /** The backward search of `containsPath` stops with a set of seen nodes
   *  that holds the target, is closed under predecessors, and never met the
   *  start as a predecessor; then the start cannot reach the target. */
  lemma ClosedSetUnreachable(E: set<Edge>, S: set<nat>, start: nat, end: nat)
    requires end in S
    requires forall y, x :: x in S && (y, x) in E ==> y in S && y != start
    ensures !Reaches(E, start, end)
  {
    if Reaches(E, start, end) {
      var p :| IsPath(E, p) && p[0] == start && p[|p| - 1] == end;
      var i := |p| - 1;
      while i > 1
        invariant 1 <= i < |p| && p[i] in S
      {
        assert (p[i - 1], p[i]) in E;
        i := i - 1;
      }
    }
  }

  /** A path in `E` plus the edge (a, b) either stays in `E` or passes
   *  through that edge. */
  lemma {:induction false} PathWithNewEdge(E: set<Edge>, a: nat, b: nat, p: seq<nat>)
    requires IsPath(E + {(a, b)}, p)
    ensures Reaches(E, p[0], p[|p| - 1])
         || (ReachesOrSame(E, p[0], a) && ReachesOrSame(E, b, p[|p| - 1]))
    decreases |p|
  {
    var F := E + {(a, b)};
    var x, y := p[|p| - 2], p[|p| - 1];
    assert (x, y) in F;
    if |p| == 2 {
      if (x, y) in E {
        EdgeReaches(E, x, y);
      }
    } else {
      var q := p[..|p| - 1];
      assert IsPath(F, q);
      PathWithNewEdge(E, a, b, q);
      assert q[0] == p[0] && q[|q| - 1] == x;
      if (x, y) in E {
        if Reaches(E, p[0], x) {
          ReachesThenEdge(E, p[0], x, y);
        } else if b == x {
          EdgeReaches(E, x, y);
        } else {
          ReachesThenEdge(E, b, x, y);
        }
      } else {
        assert x == a && y == b;
      }
    }
  }

  /** Adding an edge a -> b to an acyclic graph keeps it acyclic when the
   *  ends differ and b does not already reach a. */
  lemma AddEdgeAcyclic(E: set<Edge>, a: nat, b: nat)
    requires Acyclic(E) && a != b && !Reaches(E, b, a)
    ensures Acyclic(E + {(a, b)})
  {
    var F := E + {(a, b)};
    forall x ensures !Reaches(F, x, x) {
      if Reaches(F, x, x) {
        var p :| IsPath(F, p) && p[0] == x && p[|p| - 1] == x;
        PathWithNewEdge(E, a, b, p);
        assert !Reaches(E, x, x);
        if b != x && x != a {
          ReachesTrans(E, b, x, a);
        }
      }
    }
  }

  /** No edge of `E` touches node `n`. */
  ghost predicate Untouched(E: set<Edge>, n: nat) {
    forall e | e in E :: e.0 != n && e.1 != n
  }

  lemma UntouchedUnreachable(E: set<Edge>, n: nat, x: nat)
    requires Untouched(E, n)
    ensures !Reaches(E, n, x) && !Reaches(E, x, n)
  {
    forall p | IsPath(E, p)
      ensures p[0] != n && p[|p| - 1] != n
    {
      assert (p[0], p[1]) in E;
      assert (p[|p| - 2], p[|p| - 1]) in E;
    }
  }

  /** Splitting the edge a -> b of an acyclic graph through a node `n` no
   *  edge touches, by adding a -> n and n -> b, keeps the graph acyclic. */
  lemma SplitEdgeAcyclic(E: set<Edge>, a: nat, b: nat, n: nat)
    requires Acyclic(E) && (a, b) in E && Untouched(E, n)
    ensures Acyclic(E + {(a, n)} + {(n, b)})
  {
    UntouchedUnreachable(E, n, a);
    AddEdgeAcyclic(E, a, n);
    var F := E + {(a, n)};
    if Reaches(F, b, n) {
      var p :| IsPath(F, p) && p[0] == b && p[|p| - 1] == n;
      PathWithNewEdge(E, a, n, p);
      UntouchedUnreachable(E, n, b);
      if b != a {
        ReachesThenEdge(E, b, a, b);
      } else {
        EdgeReaches(E, a, b);
      }
    }
    AddEdgeAcyclic(F, n, b);
  }
}
