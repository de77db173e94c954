/** The two ways of choosing which genomes are mutated after breeding. The
 *  choice is modelled; each chosen genome's own `mutate()` is
 *  `Genome.Mutate`. */
module MutateMethods {
  import opened Genomes
  import opened SpeciesGroups
  import opened Cores

  /** PRESERVE_OLD (lines 12-20): the genomes mutated are the last
   *  `size / 2`, in list order; the first `size - size / 2` are kept as
   *  they are. */
  method PreserveOld(c: Core) returns (mutated: seq<Genome>)
    ensures |mutated| == |c.genomes| / 2
    ensures c.genomes == c.genomes[..|c.genomes| - |mutated|] + mutated
  {
    var size := |c.genomes|;
    mutated := [];
    for i := size - size / 2 to size
      invariant mutated == c.genomes[size - size / 2..i]
    {
      mutated := mutated + [c.genomes[i]];
    }
    assert c.genomes == c.genomes[..size - size / 2] + c.genomes[size - size / 2..];
  }

  /** `Collections.max` by fitness: the position of the first genome of
   *  greatest fitness, a later one replacing it only when strictly
   *  fitter. */
  function MaxIndex(gs: seq<Genome>): (m: nat)
    requires gs != []
    reads set g | g in gs
    ensures m < |gs|
    ensures forall k | 0 <= k < |gs| :: gs[k].fitness <= gs[m].fitness
    ensures forall k | 0 <= k < m :: gs[k].fitness < gs[m].fitness
    decreases |gs|
  {
    if |gs| == 1 then 0
    else
      var m := MaxIndex(gs[..|gs| - 1]);
      if gs[|gs| - 1].CompareTo(gs[m]) > 0 then |gs| - 1 else m
  }

  /** The list without any occurrence of `x`, in order, as `filter(g -> g
   *  != x)` leaves it. */
  function Without<T(==)>(s: seq<T>, x: T): (r: seq<T>)
    ensures multiset(r) == multiset(s)[x := 0]
    decreases |s|
  {
    if s == [] then []
    else
      var init := s[..|s| - 1];
      assert s == init + [s[|s| - 1]];
      if s[|s| - 1] == x then Without(init, x) else Without(init, x) + [s[|s| - 1]]
  }

  /** PRESERVE_TOP (lines 22-29): in each species, every member except
   *  its first fittest genome is mutated; the `k`-th list returned is the
   *  `k`-th species' members without that genome, in member order. Every
   *  species is non-empty when it runs, as `Core.Evolve` guarantees. */
  method PreserveTop(c: Core) returns (mutated: seq<seq<Genome>>)
    requires forall s | s in c.species :: s.genomes != []
    ensures |mutated| == |c.species|
    ensures forall k | 0 <= k < |c.species| ::
      var gs := c.species[k].genomes;
      mutated[k] == Without(gs, gs[MaxIndex(gs)])
  {
    mutated := [];
    for k := 0 to |c.species|
      invariant |mutated| == k
      invariant forall j | 0 <= j < k ::
        var gs := c.species[j].genomes;
        mutated[j] == Without(gs, gs[MaxIndex(gs)])
    {
      var gs := c.species[k].genomes;
      var max := gs[MaxIndex(gs)];
      mutated := mutated + [Without(gs, max)];
    }
  }

  /** What PRESERVE_TOP spares: the first fittest member is not mutated,
   *  every member strictly less fit than it is, and so is any member as
   *  fit as it but a different genome; nothing outside the species is. */
  lemma {:induction false} TopSpared(gs: seq<Genome>)
    requires gs != []
    ensures gs[MaxIndex(gs)] !in Without(gs, gs[MaxIndex(gs)])
    ensures forall g | g in gs && g != gs[MaxIndex(gs)] :: g in Without(gs, gs[MaxIndex(gs)])
    ensures forall g | g in Without(gs, gs[MaxIndex(gs)]) :: g in gs && g.fitness <= gs[MaxIndex(gs)].fitness
  {
    var max := gs[MaxIndex(gs)];
    var r := Without(gs, max);
    assert multiset(r)[max] == 0;
    forall g | g in gs && g != max ensures g in r {
      assert multiset(r)[g] == multiset(gs)[g];
    }
    forall g | g in r ensures g in gs && g.fitness <= max.fitness {
      assert g in multiset(r);
      var k :| 0 <= k < |gs| && gs[k] == g;
    }
  }
}
