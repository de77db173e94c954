/** Small shared vocabulary: optional values, draws from the random source,
 *  and facts about sequences without repeated elements. */
module Basics {

  datatype Option<T> = None | Some(value: T)

  /** A draw of `nextFloat()`: a real in [0, 1). */
  type UnitReal = r: real | 0.0 <= r < 1.0

  /** A shared, sequentially used id source: `AtomicInteger.getAndIncrement`. */
  class IdCounter {
    var next: nat

    constructor ()
      ensures next == 0
    {
      next := 0;
    }

    method GetAndIncrement() returns (v: nat)
      modifies this
      ensures v == old(next) && next == old(next) + 1
    {
      v := next;
      next := next + 1;
    }
  }

  /** No element occurs twice. */
  ghost predicate Distinct<T>(s: seq<T>) {
    forall i, j :: 0 <= i < j < |s| ==> s[i] != s[j]
  }

  /** The elements of a sequence, as a set. */
  function Elements<T>(s: seq<T>): set<T>
  {
    set x | x in s
  }

  /** A sequence without repeats has as many distinct elements as it is long. */
  lemma {:induction false} DistinctCard<T>(s: seq<T>)
    requires Distinct(s)
    ensures |Elements(s)| == |s|
  {
    if s != [] {
      var last := s[|s| - 1];
      var init := s[..|s| - 1];
      assert Distinct(init);
      DistinctCard(init);
      assert Elements(s) == Elements(init) + {last};
      assert last !in init;
    }
  }

  /** A sequence has at least as many positions as distinct elements. */
  lemma {:induction false} ElementsCardBound<T>(s: seq<T>)
    ensures |Elements(s)| <= |s|
  {
    if s != [] {
      var init := s[..|s| - 1];
      ElementsCardBound(init);
      assert Elements(s) == Elements(init) + {s[|s| - 1]};
    }
  }

  /** The sequence holds as many distinct elements as positions. */
  ghost predicate NoRepeats<T>(s: seq<T>) {
    |Elements(s)| == |s|
  }

  lemma AppendNew<T>(s: seq<T>, x: T)
    requires NoRepeats(s) && x !in s
    ensures NoRepeats(s + [x]) && Elements(s + [x]) == Elements(s) + {x}
  {
    assert Elements(s + [x]) == Elements(s) + {x};
  }

  /** A repeat-free sequence whose elements all occur in `b` is no longer than `b`. */
  lemma DistinctLengthBound<T>(a: seq<T>, b: seq<T>)
    requires Distinct(a)
    requires forall x :: x in a ==> x in b
    ensures |a| <= |b|
  {
    DistinctCard(a);
    ElementsCardBound(b);
    assert Elements(a) <= Elements(b);
    SubsetCard(Elements(a), Elements(b));
  }

  lemma {:induction false} SubsetCard<T>(a: set<T>, b: set<T>)
    requires a <= b
    ensures |a| <= |b|
    decreases |b|
  {
    if a != {} {
      var x :| x in a;
      SubsetCard(a - {x}, b - {x});
    }
  }

  lemma StrictSubsetCard<T>(a: set<T>, b: set<T>)
    requires a < b
    ensures |a| < |b|
  {
    assert b - a != {} by {
      assert a != b;
    }
    var x :| x in b - a;
    SubsetCard(a, b - {x});
  }

  lemma PrefixMember<T>(a: seq<T>, b: seq<T>, x: T)
    requires a <= b && x in a
    ensures x in b
  {
    var i :| 0 <= i < |a| && a[i] == x;
    assert b[i] == x;
  }

  /** Appending two elements keeps the sequence a prefix of the result. */
  lemma AppendTwoPrefix<T>(a: seq<T>, x: T, y: T)
    ensures a <= a + [x] + [y]
  {
    assert (a + [x] + [y])[..|a|] == a;
  }

  /** A prefix holds no element the whole sequence lacks. */
  lemma PrefixElements<T>(a: seq<T>, b: seq<T>)
    requires a <= b
    ensures Elements(a) <= Elements(b)
  {
    forall x | x in Elements(a) ensures x in Elements(b) {
      var i :| 0 <= i < |a| && a[i] == x;
      assert b[i] == x;
    }
  }

  /** Two repeat-free sequences with the same elements hold the same multiset. */
  lemma SameElementsSameMultiset<T>(a: seq<T>, b: seq<T>)
    requires Distinct(a) && Distinct(b)
    requires forall x :: x in a <==> x in b
    ensures multiset(a) == multiset(b)
  {
    forall x ensures multiset(a)[x] == multiset(b)[x] {
      DistinctCount(a, x);
      DistinctCount(b, x);
    }
  }

  lemma {:induction false} DistinctCount<T>(s: seq<T>, x: T)
    requires Distinct(s)
    ensures multiset(s)[x] == if x in s then 1 else 0
  {
    if s != [] {
      var init := s[..|s| - 1];
      assert s == init + [s[|s| - 1]];
      assert Distinct(init);
      DistinctCount(init, x);
    }
  }
}
