/** A species: a list of member genomes and a leader. */
module SpeciesGroups {
  import opened Genomes
  import opened ListRemovals

  /** Java's `(int)` cast of a number: truncation toward zero. */
  function Truncate(x: real): (r: int)
    ensures x >= 0.0 ==> 0 <= r && r as real <= x < r as real + 1.0
    ensures x < 0.0 ==> r <= 0 && r as real - 1.0 < x <= r as real
  {
    if x >= 0.0 then x.Floor else -((-x).Floor)
  }

  /** The number of members `killRandom(fraction)` removes from `size`
   *  (line 31); negative when `fraction` exceeds one, and then nothing is
   *  removed. */
  function CountToRemove(size: nat, fraction: real): int {
    Truncate(size as real * (1.0 - fraction))
  }

  /** How many members are in fact removed: the count, or none when it is
   *  negative. */
  function Removals(size: nat, fraction: real): (n: nat)
  {
    if CountToRemove(size, fraction) < 0 then 0 else CountToRemove(size, fraction)
  }

  /** For a fraction between zero and one the count is the floor of
   *  `size * (1 - fraction)`, between zero and `size`. */
  lemma CountToRemoveBounds(size: nat, fraction: real)
    requires 0.0 <= fraction <= 1.0
    ensures CountToRemove(size, fraction) == (size as real * (1.0 - fraction)).Floor
    ensures 0 <= CountToRemove(size, fraction) <= size
  {
    var x := size as real * (1.0 - fraction);
    assert 0.0 <= x <= size as real;
  }

  /** `kill(g)` on the leader draws the new leader, member `gs[pick]`,
   *  before it removes `g` (lines 24-27). The species is then left with a
   *  leader that is no longer a member exactly when the draw hit `g`
   *  itself and `g` was a member only once. */
  lemma LeaderMayBeRemoved(gs: seq<Genome>, g: Genome, pick: nat)
    requires pick < |gs|
    ensures gs[pick] !in RemoveFirst(gs, g) <==> gs[pick] == g && multiset(gs)[g] == 1
  {
    var r := RemoveFirst(gs, g);
    var x := gs[pick];
    assert x in multiset(gs);
    if g in gs {
      assert multiset(r)[x] == multiset(gs)[x] - (if x == g then 1 else 0);
    }
  }

  class Species {
    var genomes: seq<Genome>
    var leaderGenome: Genome

    /** A new species has its leader as its sole member (lines 12-16). */
    constructor (leaderGenome: Genome)
      ensures genomes == [leaderGenome] && this.leaderGenome == leaderGenome
    {
      genomes := [leaderGenome];
      this.leaderGenome := leaderGenome;
    }

    /** Appends a member (lines 18-20). */
    method AddGenome(genome: Genome)
      modifies this`genomes
      ensures genomes == old(genomes) + [genome] && leaderGenome == old(leaderGenome)
    {
      genomes := genomes + [genome];
    }

    /** Removes the first occurrence of `g` and reports whether there was
     *  one; when `g` is the leader, a new leader is first drawn, with draw
     *  `pick`, from the members before the removal (lines 22-28). */
    method Kill(g: Genome, pick: nat) returns (removed: bool)
      requires g == leaderGenome ==> pick < |genomes|
      modifies this`genomes, this`leaderGenome
      ensures removed <==> g in old(genomes)
      ensures genomes == RemoveFirst(old(genomes), g)
      ensures leaderGenome == if g == old(leaderGenome) then old(genomes)[pick] else old(leaderGenome)
    {
      if g == leaderGenome {
        var _ := SetRandomLeader(pick);
      }
      var i := FirstIndex(genomes, g);
      removed := i >= 0;
      if removed {
        genomes := RemoveAt(genomes, i);
      }
    }

    /** Removes `CountToRemove(size, fraction)` members, the k-th at drawn
     *  position `picks[k]`, and returns them in removal order; the leader
     *  is left as it is, removed or not (lines 30-38). */
    method KillRandom(fraction: real, picks: seq<nat>) returns (removed: seq<Genome>)
      requires CountToRemove(|genomes|, fraction) <= |genomes|
      requires InRange(|genomes|, picks) && CountToRemove(|genomes|, fraction) <= |picks|
      modifies this`genomes
      ensures InRange(|old(genomes)|, picks[..Removals(|old(genomes)|, fraction)])
      ensures (genomes, removed) == Cull(old(genomes), picks[..Removals(|old(genomes)|, fraction)])
      ensures leaderGenome == old(leaderGenome)
    {
      var countToRemove := CountToRemove(|genomes|, fraction);
      var size := |genomes|;
      ghost var S := genomes;
      ghost var n := Removals(size, fraction);
      removed := [];
      var drawn := 0;
      assert picks[..0] == [];
      while |genomes| > size - countToRemove
        invariant drawn <= n && |genomes| == size - drawn
        invariant (genomes, removed) == Cull(S, picks[..drawn])
        decreases |genomes|
      {
        CullStep(S, picks, drawn);
        removed := removed + [genomes[picks[drawn]]];
        genomes := RemoveAt(genomes, picks[drawn]);
        drawn := drawn + 1;
      }
      assert drawn == n;
    }

    /** Makes the member at drawn position `pick` the leader (lines 40-42). */
    method SetRandomLeader(pick: nat) returns (leader: Genome)
      requires pick < |genomes|
      modifies this`leaderGenome
      ensures leader == leaderGenome == genomes[pick] && leaderGenome in genomes
    {
      leaderGenome := genomes[pick];
      leader := leaderGenome;
    }
  }
}
