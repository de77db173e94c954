/** The three ways of thinning the population before breeding. */
module KillMethods {
  import opened Basics
  import opened Genomes
  import opened Cores
  import opened ListRemovals

  /** The fitness of every genome of a list, read once: nothing here
   *  changes a fitness, so the reads can be taken up front. */
  function FitnessOf(gs: seq<Genome>): (F: map<Genome, real>)
    reads set g | g in gs
    ensures forall g | g in gs :: g in F && F[g] == g.fitness
  {
    map g | g in gs :: g.fitness
  }

  /** The fitness recorded for `g`. */
  function Fit(F: map<Genome, real>, g: Genome): real {
    if g in F then F[g] else 0.0
  }

  /** The total fitness of a list. */
  function Total(F: map<Genome, real>, gs: seq<Genome>): real
    decreases |gs|
  {
    if gs == [] then 0.0 else Total(F, gs[..|gs| - 1]) + Fit(F, gs[|gs| - 1])
  }

  /** The running total after the genome at position `j`. */
  function Reached(F: map<Genome, real>, gs: seq<Genome>, j: nat): real
    requires j < |gs|
  {
    Total(F, gs[..j + 1])
  }

  /** Extending a list by one genome adds its fitness to the total. */
  lemma TotalSnoc(F: map<Genome, real>, gs: seq<Genome>, g: Genome)
    ensures Total(F, gs + [g]) == Total(F, gs) + Fit(F, g)
  {
    assert (gs + [g])[..|gs|] == gs;
  }

  /** Ascending by fitness, the order `Genome.compareTo` defines. */
  predicate Ascending(F: map<Genome, real>, gs: seq<Genome>) {
    forall i, j | 0 <= i < j < |gs| :: Fit(F, gs[i]) <= Fit(F, gs[j])
  }

  /** Inserts `g` into a list after the leading genomes that are not
   *  fitter than it, as a stable sort does. */
  function Insert(F: map<Genome, real>, g: Genome, gs: seq<Genome>): (r: seq<Genome>)
    ensures multiset(r) == multiset(gs) + multiset{g}
    decreases |gs|
  {
    if gs == [] then [g]
    else if Fit(F, g) < Fit(F, gs[0]) then [g] + gs
    else
      assert gs == [gs[0]] + gs[1..];
      [gs[0]] + Insert(F, g, gs[1..])
  }

  /** Insertion into an ascending list leaves it ascending. */
  lemma {:induction false} InsertAscending(F: map<Genome, real>, g: Genome, gs: seq<Genome>)
    requires Ascending(F, gs)
    ensures Ascending(F, Insert(F, g, gs))
    decreases |gs|
  {
    if gs != [] && Fit(F, gs[0]) <= Fit(F, g) {
      var rest := Insert(F, g, gs[1..]);
      InsertAscending(F, g, gs[1..]);
      forall k | 0 <= k < |rest| ensures Fit(F, gs[0]) <= Fit(F, rest[k]) {
        assert rest[k] in multiset(rest);
        if rest[k] != g {
          assert rest[k] in gs[1..];
        }
      }
    }
  }

  /** `Collections.sort` by fitness: insertion of each genome in turn. */
  function Sort(F: map<Genome, real>, gs: seq<Genome>): (r: seq<Genome>)
    ensures multiset(r) == multiset(gs) && Ascending(F, r)
    decreases |gs|
  {
    if gs == [] then []
    else
      var init := gs[..|gs| - 1];
      assert gs == init + [gs[|gs| - 1]];
      InsertAscending(F, gs[|gs| - 1], Sort(F, init));
      Insert(F, gs[|gs| - 1], Sort(F, init))
  }

  /** BOTTOM_HALF (lines 11-20): sorts the population by fitness and
   *  removes its first `size / 2` genomes, which are returned. */
  method BottomHalf(c: Core) returns (ghost killed: seq<Genome>)
    modifies c`genomes
    ensures |killed| == |old(c.genomes)| / 2 && |c.genomes| == |old(c.genomes)| - |old(c.genomes)| / 2
    ensures multiset(killed) + multiset(c.genomes) == multiset(old(c.genomes))
    ensures Ascending(FitnessOf(old(c.genomes)), c.genomes)
    ensures forall g, h | g in killed && h in c.genomes :: g.fitness <= h.fitness
  {
    ghost var S := c.genomes;
    var F := FitnessOf(c.genomes);
    var sorted := Sort(F, c.genomes);
    c.genomes := sorted;
    var size := |sorted|;
    DropFront(c, size / 2);
    killed := sorted[..size / 2];
    SplitAscending(S, sorted, size / 2);
  }

  /** Removes the first `n` genomes one at a time, as `remove(0)` does. */
  method DropFront(c: Core, n: nat)
    requires n <= |c.genomes|
    modifies c`genomes
    ensures c.genomes == old(c.genomes)[n..]
  {
    ghost var S := c.genomes;
    for i := 0 to n
      invariant c.genomes == S[i..]
    {
      c.genomes := RemoveAt(c.genomes, 0);
    }
  }

  /** The front part of an ascending list is no fitter than the rest, read
   *  back as the genomes' fitness. */
  lemma SplitAscending(s: seq<Genome>, gs: seq<Genome>, n: nat)
    requires multiset(gs) == multiset(s) && Ascending(FitnessOf(s), gs) && n <= |gs|
    ensures multiset(gs[..n]) + multiset(gs[n..]) == multiset(s)
    ensures Ascending(FitnessOf(s), gs[n..])
    ensures forall g, h | g in gs[..n] && h in gs[n..] :: g.fitness <= h.fitness
  {
    assert gs == gs[..n] + gs[n..];
    var F := FitnessOf(s);
    forall g, h | g in gs[..n] && h in gs[n..]
      ensures g.fitness <= h.fitness
    {
      var i :| 0 <= i < n && gs[i] == g;
      var j :| n <= j < |gs| && gs[j] == h;
      assert g in multiset(s) && h in multiset(s);
    }
  }

  /** RANDOM_UNIFORM (lines 22-30): removes `size / 2` genomes, the k-th
   *  at drawn position `picks[k]` of the list left at that point. */
  method RandomUniform(c: Core, picks: seq<nat>)
    requires InRange(|c.genomes|, picks) && |c.genomes| / 2 <= |picks|
    modifies c`genomes
    ensures InRange(|old(c.genomes)|, picks[..|old(c.genomes)| / 2])
    ensures c.genomes == Cull(old(c.genomes), picks[..|old(c.genomes)| / 2]).0
    ensures |c.genomes| == |old(c.genomes)| - |old(c.genomes)| / 2
    ensures multiset(c.genomes) <= multiset(old(c.genomes)) && Subsequence(c.genomes, old(c.genomes))
  {
    ghost var S := c.genomes;
    var size := |c.genomes|;
    assert picks[..0] == [];
    for i := 0 to size / 2
      invariant |c.genomes| == size - i && c.genomes == Cull(S, picks[..i]).0
    {
      CullStep(S, picks, i);
      c.genomes := RemoveAt(c.genomes, picks[i]);
    }
    assert InRange(size, picks[..size / 2]);
    CullKeepsOrder(S, picks[..size / 2]);
  }

  /** The roulette scan (lines 41-49): the position of the first genome at
   *  which the running fitness total reaches `target`, or -1 when none
   *  does. */
  method Spin(gs: seq<Genome>, target: real) returns (at: int)
    ensures -1 <= at < |gs|
    ensures at >= 0 ==> Reached(FitnessOf(gs), gs, at) >= target
    ensures forall j | 0 <= j < (if at >= 0 then at else |gs|) :: Reached(FitnessOf(gs), gs, j) < target
  {
    ghost var F := FitnessOf(gs);
    var currentSum := 0.0;
    var i := 0;
    while i < |gs|
      invariant 0 <= i <= |gs| && currentSum == Total(F, gs[..i])
      invariant forall j | 0 <= j < i :: Reached(F, gs, j) < target
    {
      assert gs[..i + 1] == gs[..i] + [gs[i]];
      TotalSnoc(F, gs[..i], gs[i]);
      currentSum := currentSum + gs[i].fitness;
      if currentSum >= target {
        return i;
      }
      i := i + 1;
    }
    return -1;
  }

  /** The fitness of a whole list, summed front to back (lines 36-38). */
  method TotalFitness(gs: seq<Genome>) returns (total: real)
    ensures total == Total(FitnessOf(gs), gs)
  {
    ghost var F := FitnessOf(gs);
    total := 0.0;
    for i := 0 to |gs|
      invariant total == Total(F, gs[..i])
    {
      assert gs[..i + 1] == gs[..i] + [gs[i]];
      TotalSnoc(F, gs[..i], gs[i]);
      total := total + gs[i].fitness;
    }
    assert gs[..|gs|] == gs;
  }

  /** PERCENTILE (lines 32-52), whose running total `sum` is kept from one
   *  call to the next. */
  class Percentile {
    var sum: real

    constructor ()
      ensures sum == 0.0
    {
      sum := 0.0;
    }

    /** Adds every fitness to the running total, then spins the roulette
     *  `size / 2` times, the k-th time aiming at `draws[k] * sum`; a spin
     *  that reaches the target removes the first occurrence of the genome
     *  it stopped at and takes its fitness off the total; one that does
     *  not removes nothing. */
    method Kill(c: Core, draws: seq<UnitReal>) returns (ghost removed: seq<Genome>)
      requires |c.genomes| / 2 <= |draws|
      modifies this, c`genomes
      ensures |removed| <= |old(c.genomes)| / 2 && |c.genomes| + |removed| == |old(c.genomes)|
      ensures multiset(c.genomes) + multiset(removed) == multiset(old(c.genomes))
      ensures sum == old(sum) + Total(FitnessOf(old(c.genomes)), old(c.genomes)) - Total(FitnessOf(old(c.genomes)), removed)
    {
      var gs := c.genomes;
      ghost var S, F := gs, FitnessOf(gs);
      var total := TotalFitness(gs);
      sum := sum + total;
      var size := |gs|;
      removed := [];
      for k := 0 to size / 2
        invariant |removed| <= k && |gs| + |removed| == size
        invariant multiset(gs) + multiset(removed) == multiset(S)
        invariant sum == old(sum) + Total(F, S) - Total(F, removed)
      {
        var randFitness := draws[k] * sum;
        var at := Spin(gs, randFitness);
        if at >= 0 {
          var g := gs[at];
          assert g in multiset(S);
          sum := sum - g.fitness;
          TotalSnoc(F, removed, g);
          gs := RemoveFirst(gs, g);
          removed := removed + [g];
        }
      }
      c.genomes := gs;
    }
  }
}
