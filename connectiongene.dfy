/** A directed, weighted connection between two nodes, identified by its
 *  innovation number. */
module ConnectionGenes {
  import opened Basics
  import opened NodeGenes

  const WEIGHT_PROB: real := 0.9
  const UNIFORM_WEIGHT_CHANGE: real := 0.1
  const LOWER_WEIGHT_BOUND: real := -1.0
  const UPPER_WEIGHT_BOUND: real := 1.0

  /** The draws one weight mutation consumes: the gate (`nextDouble`), the
   *  step size and its sign for the uniform step, and the fresh value for
   *  the random reassignment. */
  datatype WeightDraw = WeightDraw(gate: UnitReal, step: UnitReal, negative: bool, reassign: UnitReal)

  /** The weight the random reassignment gives for a uniform draw. */
  function RandomWeight(u: UnitReal): (w: real)
    ensures LOWER_WEIGHT_BOUND <= w < UPPER_WEIGHT_BOUND
  {
    LOWER_WEIGHT_BOUND + (UPPER_WEIGHT_BOUND - LOWER_WEIGHT_BOUND) * u
  }

  /** The weight after one `mutate()`: a small uniform step when the gate
   *  opens, otherwise a fresh random weight. */
  function MutatedWeight(w: real, d: WeightDraw): (r: real)
    ensures d.gate < WEIGHT_PROB ==> -UNIFORM_WEIGHT_CHANGE < r - w < UNIFORM_WEIGHT_CHANGE
    ensures d.gate >= WEIGHT_PROB ==> r == RandomWeight(d.reassign)
  {
    if d.gate < WEIGHT_PROB then
      w + UNIFORM_WEIGHT_CHANGE * d.step * (if d.negative then -1.0 else 1.0)
    else
      RandomWeight(d.reassign)
  }

  class ConnectionGene {
    const innovation: nat
    const input: NodeGene
    const output: NodeGene
    var active: bool
    var weight: real

    /** A new connection takes the next innovation number of the shared
     *  counter, starts active and gets a random weight. */
    constructor (input: NodeGene, output: NodeGene, ai: IdCounter, u: UnitReal)
      modifies ai
      ensures innovation == old(ai.next) && ai.next == old(ai.next) + 1
      ensures this.input == input && this.output == output
      ensures active && weight == RandomWeight(u)
    {
      var v := ai.GetAndIncrement();
      innovation := v;
      this.input := input;
      this.output := output;
      active := true;
      weight := RandomWeight(u);
    }

    /** The private copying constructor: same identity, always active. */
    constructor Copying(input: NodeGene, output: NodeGene, innovation: nat, weight: real)
      ensures this.input == input && this.output == output
      ensures this.innovation == innovation && this.weight == weight && active
    {
      this.input := input;
      this.output := output;
      this.innovation := innovation;
      this.weight := weight;
      active := true;
    }

    /** A fresh object with the same ends, innovation number and weight;
     *  the copy is active whatever this connection is. */
    method Copy() returns (c: ConnectionGene)
      ensures fresh(c) && SameGene(c, this) && c.weight == weight && c.active
    {
      c := new ConnectionGene.Copying(input, output, innovation, weight);
    }

    /** Connection equality compares innovation numbers only. */
    predicate Equals(o: ConnectionGene) {
      innovation == o.innovation
    }

    /** Whether this connection runs from `a` to `b`, nodes compared by id. */
    predicate Equals2(a: NodeGene, b: NodeGene) {
      a.Equals(input) && b.Equals(output)
    }

    /** Orders connections by innovation number. */
    function CompareTo(o: ConnectionGene): (r: int)
      ensures -1 <= r <= 1
      ensures r < 0 <==> innovation < o.innovation
      ensures r == 0 <==> Equals(o)
    {
      if innovation < o.innovation then -1
      else if innovation > o.innovation then 1
      else 0
    }

    method SetWeight(w: real)
      modifies this`weight
      ensures weight == w
    {
      weight := w;
    }

    method SetActive(a: bool)
      modifies this`active
      ensures active == a && weight == old(weight)
    {
      active := a;
    }

    /** The uniform step: taken when the gate is below WEIGHT_PROB. */
    method MutateWeightUniform(gate: UnitReal, step: UnitReal, negative: bool) returns (changed: bool)
      modifies this`weight
      ensures changed <==> gate < WEIGHT_PROB
      ensures changed ==> weight == old(weight) + UNIFORM_WEIGHT_CHANGE * step * (if negative then -1.0 else 1.0)
      ensures !changed ==> weight == old(weight)
    {
      if gate < WEIGHT_PROB {
        weight := weight + UNIFORM_WEIGHT_CHANGE * step * (if negative then -1.0 else 1.0);
        return true;
      }
      return false;
    }

    method MutateWeightRandom(u: UnitReal)
      modifies this`weight
      ensures weight == RandomWeight(u)
    {
      weight := RandomWeight(u);
    }

    /** Tries the uniform step first and reassigns randomly only when it was
     *  not taken. */
    method Mutate(d: WeightDraw)
      modifies this`weight
      ensures weight == MutatedWeight(old(weight), d)
    {
      var changed := MutateWeightUniform(d.gate, d.step, d.negative);
      if !changed {
        MutateWeightRandom(d.reassign);
      }
    }
  }

  /** Same innovation number and the same end nodes. */
  predicate SameGene(c: ConnectionGene, d: ConnectionGene) {
    c.innovation == d.innovation && c.input == d.input && c.output == d.output
  }

  /** `Equals2` holds exactly for the connections whose ends have the given ids. */
  lemma Equals2ById(c: ConnectionGene, a: NodeGene, b: NodeGene)
    ensures c.Equals2(a, b) <==> c.input.id == a.id && c.output.id == b.id
  {
  }

  /** `CompareTo` is a total order on innovation numbers. */
  lemma CompareToIsTotalOrder(a: ConnectionGene, b: ConnectionGene, c: ConnectionGene)
    ensures a.CompareTo(b) == -b.CompareTo(a)
    ensures a.CompareTo(b) <= 0 && b.CompareTo(c) <= 0 ==> a.CompareTo(c) <= 0
    ensures a.CompareTo(b) <= 0 || b.CompareTo(a) <= 0
  {
  }
}
