/** A node of a network: an id drawn from a shared counter, a fixed layer,
 *  and the three fields the strongly-connected-component search writes. */
module NodeGenes {
  import opened Basics

  datatype Layer = Input | Hidden | Output

  class NodeGene {
    const id: nat
    const layer: Layer
    var index: Option<nat>
    var lowlink: Option<nat>
    var onStack: bool

    /** Takes the next id of the shared counter; the search fields start unset. */
    constructor (layer: Layer, ai: IdCounter)
      modifies ai
      ensures id == old(ai.next) && ai.next == old(ai.next) + 1
      ensures this.layer == layer
      ensures index == None && lowlink == None && !onStack
    {
      var v := ai.GetAndIncrement();
      id := v;
      this.layer := layer;
      index := None;
      lowlink := None;
      onStack := false;
    }

    /** Node equality compares ids only. */
    predicate Equals(o: NodeGene) {
      id == o.id
    }

    method SetIndex(i: Option<nat>)
      modifies this`index
      ensures index == i
    {
      index := i;
    }

    method SetLowlink(l: Option<nat>)
      modifies this`lowlink
      ensures lowlink == l
    {
      lowlink := l;
    }

    method SetOnStack(b: bool)
      modifies this`onStack
      ensures onStack == b
    {
      onStack := b;
    }

    /** Clears the search fields and nothing else. */
    method Reset()
      modifies this`index, this`lowlink, this`onStack
      ensures index == None && lowlink == None && !onStack
    {
      index := None;
      lowlink := None;
      onStack := false;
    }
  }

  /** Node equality is an equivalence that identifies exactly the nodes with one id. */
  lemma NodeEqualsIsIdEquality(a: NodeGene, b: NodeGene, c: NodeGene)
    ensures a.Equals(a)
    ensures a.Equals(b) <==> a.id == b.id
    ensures a.Equals(b) ==> b.Equals(a)
    ensures a.Equals(b) && b.Equals(c) ==> a.Equals(c)
  {
  }
}
