/** The removals of Java's array list the population code uses: by
 *  position (`remove(int)`), by first occurrence (`remove(Object)`, which
 *  for genomes compares references), and removal at one drawn position
 *  after another. */
module ListRemovals {

  /** The list without its element at position `i`. */
  function RemoveAt<T>(s: seq<T>, i: nat): (r: seq<T>)
    requires i < |s|
    ensures |r| == |s| - 1
    ensures forall k | 0 <= k < |r| :: r[k] == if k < i then s[k] else s[k + 1]
    ensures multiset(r) + multiset{s[i]} == multiset(s)
  {
    assert s == s[..i] + [s[i]] + s[i + 1..];
    s[..i] + s[i + 1..]
  }

  /** The position of the first occurrence of `x` in `s`, or -1. */
  function FirstIndex<T(==)>(s: seq<T>, x: T): (r: int)
    ensures -1 <= r < |s|
    ensures r == -1 <==> x !in s
    ensures r >= 0 ==> s[r] == x && x !in s[..r]
  {
    if s == [] then -1
    else if s[0] == x then 0
    else
      var j := FirstIndex(s[1..], x);
      assert s[1..] == s[1..][..|s| - 1];
      if j == -1 then -1
      else
        assert s[..j + 1] == [s[0]] + s[1..][..j];
        j + 1
  }

  /** The list without the first occurrence of `x`: exactly one copy of
   *  `x` fewer when there is one, and otherwise the list unchanged. */
  function RemoveFirst<T(==)>(s: seq<T>, x: T): (r: seq<T>)
    ensures x in s ==> |r| == |s| - 1 && multiset(r) + multiset{x} == multiset(s)
    ensures x !in s ==> r == s
  {
    var i := FirstIndex(s, x);
    if i < 0 then s else RemoveAt(s, i)
  }

  /** `a` is `b` with elements left out and the rest kept in order: `a[i]`
   *  sits at position `pos[i]` of `b`, the positions increasing. */
  ghost predicate Embeds<T>(a: seq<T>, b: seq<T>, pos: seq<nat>) {
    && |pos| == |a|
    && (forall i | 0 <= i < |a| :: pos[i] < |b| && a[i] == b[pos[i]])
    && (forall i, j | 0 <= i < j < |a| :: pos[i] < pos[j])
  }

  /** `a` is a subsequence of `b`. */
  ghost predicate Subsequence<T>(a: seq<T>, b: seq<T>) {
    exists pos :: Embeds(a, b, pos)
  }

  /** Every list is a subsequence of itself. */
  lemma SubsequenceOfSelf<T>(s: seq<T>)
    ensures Embeds(s, s, seq(|s|, i => i))
    ensures Subsequence(s, s)
  {
    var pos: seq<nat> := seq(|s|, i => i);
    assert Embeds(s, s, pos);
  }

  /** A subsequence stays one when the list grows at its end, and may take
   *  the new last element along. */
  lemma EmbedsSnoc<T>(a: seq<T>, b: seq<T>, pos: seq<nat>, x: T)
    requires Embeds(a, b, pos)
    ensures Embeds(a, b + [x], pos)
    ensures Embeds(a + [x], b + [x], pos + [|b|])
  {
  }

  /** Removing one element keeps a subsequence a subsequence. */
  lemma RemoveAtEmbeds<T>(a: seq<T>, b: seq<T>, pos: seq<nat>, i: nat)
    requires Embeds(a, b, pos) && i < |a|
    ensures Embeds(RemoveAt(a, i), b, RemoveAt(pos, i))
  {
    var a', pos' := RemoveAt(a, i), RemoveAt(pos, i);
    forall x, y | 0 <= x < y < |a'| ensures pos'[x] < pos'[y] {
      var x0 := if x < i then x else x + 1;
      var y0 := if y < i then y else y + 1;
      assert pos'[x] == pos[x0] && pos'[y] == pos[y0] && x0 < y0;
    }
  }

  /** Drawn positions are in range: the `k`-th draw falls in the list that
   *  is left after `k` removals. */
  predicate InRange(size: nat, picks: seq<nat>) {
    |picks| <= size && forall k | 0 <= k < |picks| :: picks[k] < size - k
  }

  /** Removal at the drawn positions, one after another: the list left
   *  and the removed elements in removal order. */
  function Cull<T>(s: seq<T>, picks: seq<nat>): (r: (seq<T>, seq<T>))
    requires InRange(|s|, picks)
    ensures |r.0| == |s| - |picks| && |r.1| == |picks|
    ensures multiset(r.0) + multiset(r.1) == multiset(s)
    decreases |picks|
  {
    if picks == [] then (s, [])
    else
      var n := |picks| - 1;
      assert InRange(|s|, picks[..n]);
      var prev := Cull(s, picks[..n]);
      var rest := RemoveAt(prev.0, picks[n]);
      (rest, prev.1 + [prev.0[picks[n]]])
  }

  /** The list left by `Cull` keeps the order of the original. */
  lemma {:induction false} CullKeepsOrder<T>(s: seq<T>, picks: seq<nat>)
    requires InRange(|s|, picks)
    ensures Subsequence(Cull(s, picks).0, s)
    decreases |picks|
  {
    if picks == [] {
      SubsequenceOfSelf(s);
    } else {
      var n := |picks| - 1;
      assert InRange(|s|, picks[..n]);
      CullKeepsOrder(s, picks[..n]);
      var prev := Cull(s, picks[..n]);
      var pos :| Embeds(prev.0, s, pos);
      RemoveAtEmbeds(prev.0, s, pos, picks[n]);
    }
  }

  /** One more removal, as the loops perform it. */
  lemma CullStep<T>(s: seq<T>, picks: seq<nat>, k: nat)
    requires InRange(|s|, picks) && k < |picks|
    ensures InRange(|s|, picks[..k]) && InRange(|s|, picks[..k + 1])
    ensures picks[k] < |Cull(s, picks[..k]).0|
    ensures Cull(s, picks[..k + 1]).0 == RemoveAt(Cull(s, picks[..k]).0, picks[k])
    ensures Cull(s, picks[..k + 1]).1 == Cull(s, picks[..k]).1 + [Cull(s, picks[..k]).0[picks[k]]]
  {
    assert picks[..k + 1][..k] == picks[..k];
  }
}
