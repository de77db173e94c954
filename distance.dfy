/** The compatibility distance between two genomes' connection lists: excess,
 *  disjoint and matching genes, aligned by innovation number. */
module Distances {
  import opened Basics
  import opened ConnectionGenes
  import opened GeneViews

  const EXCESS_WEIGHT: real := 1.0
  const DISJOINT_WEIGHT: real := 1.0
  const MATCHING_WEIGHT: real := 0.4

  /** The second list holds an innovation number greater than every number
   *  of the first, so the two scans for the newest gene make its genome the
   *  "max" genome; on a tie, or when both lists are empty, the first list's
   *  genome is the "max" genome. */
  predicate SecondIsMax(a: seq<ConnectionGene>, b: seq<ConnectionGene>) {
    MaxInnovation(b) > MaxInnovation(a)
  }

  /** The matching genes' numbers: those both lists carry. */
  function Matching(a: seq<ConnectionGene>, b: seq<ConnectionGene>): set<nat> {
    Innovations(a) * Innovations(b)
  }

  /** The gene `indexOf` finds for number `k`: the first one. */
  function FirstGene(cs: seq<ConnectionGene>, k: nat): (c: ConnectionGene)
    requires k in Innovations(cs)
    ensures c in cs && c.innovation == k
    ensures forall i | 0 <= i < |cs| && cs[i].innovation == k :: c == cs[FirstIndexOf(cs, k)]
  {
    var i := FirstIndexOf(cs, k);
    assert i >= 0 by {
      var c :| c in cs && c.innovation == k;
      var j :| 0 <= j < |cs| && cs[j] == c;
    }
    cs[i]
  }

  /** A gene of `ms` is numbered strictly between the genes at positions
   *  `i - 1` and `i` of `s`. */
  predicate Gap(s: seq<ConnectionGene>, ms: seq<ConnectionGene>, i: nat)
    requires 1 <= i < |s|
  {
    exists c | c in ms :: s[i - 1].innovation < c.innovation < s[i].innovation
  }

  /** The first position from `lo` on that ends a gap, or -1. */
  function LowestGap(s: seq<ConnectionGene>, ms: seq<ConnectionGene>, lo: nat): (r: int)
    requires 1 <= lo
    ensures r == -1 || (lo <= r < |s| && Gap(s, ms, r))
    ensures forall i | lo <= i < |s| && (r == -1 || i < r) :: !Gap(s, ms, i)
    decreases |s| - lo
  {
    if lo >= |s| then -1
    else if Gap(s, ms, lo) then lo
    else LowestGap(s, ms, lo + 1)
  }

  /** What the excess scan over the sorted list `s` leaves: the scan runs
   *  from the end down to position 1 and the last gap it meets, the lowest
   *  one, sets the count to the number of genes of `s` after that gap. */
  function ExcessCount(s: seq<ConnectionGene>, ms: seq<ConnectionGene>): (e: int)
    ensures 0 <= e && (e == 0 || e <= |s| - 2)
    ensures e > 0 ==> Gap(s, ms, |s| - 1 - e) && forall i | 1 <= i < |s| - 1 - e :: !Gap(s, ms, i)
  {
    var g := LowestGap(s, ms, 1);
    if g < 0 then 0 else |s| - 1 - g
  }

  /** The disjoint count of the source's formula, given the excess count `e`. */
  function DisjointCount(mx: seq<ConnectionGene>, mn: seq<ConnectionGene>, e: int): int {
    (|mn| - |Matching(mx, mn)|) + (|mx| - |Matching(mx, mn)| - e)
  }

  function AbsDiff(x: real, y: real): (r: real)
    ensures r >= 0.0 && (r == x - y || r == y - x)
  {
    if x < y then y - x else x - y
  }

  lemma AbsDiffSymmetric(x: real, y: real)
    ensures AbsDiff(x, y) == AbsDiff(y, x)
  {
  }

  /** The weights the genes of two lists carry at one moment. */
  function Weights(a: seq<ConnectionGene>, b: seq<ConnectionGene>): (w: map<ConnectionGene, real>)
    reads Elements(a), Elements(b)
    ensures Weighs(w, a, b)
    ensures forall c | c in w :: w[c] == c.weight
  {
    map c | c in Elements(a) + Elements(b) :: c.weight
  }

  /** Every gene of the two lists has a weight in `w`. */
  predicate Weighs(w: map<ConnectionGene, real>, mx: seq<ConnectionGene>, mn: seq<ConnectionGene>) {
    Elements(mx) <= w.Keys && Elements(mn) <= w.Keys
  }

  /** The absolute weight difference of each matching gene, with weights
   *  `w`: the "max" genome's last gene with the number against the other
   *  genome's first. */
  function WeightGaps(mx: seq<ConnectionGene>, mn: seq<ConnectionGene>, w: map<ConnectionGene, real>): (g: map<nat, real>)
    requires Weighs(w, mx, mn)
    ensures g.Keys == Matching(mx, mn)
    ensures forall k | k in g :: g[k] >= 0.0
  {
    map k | k in Matching(mx, mn) :: AbsDiff(w[LastGene(mx, k)], w[FirstGene(mn, k)])
  }

  /** The sum of the values of `g` at the numbers in `keys`. */
  ghost function SumOver(keys: set<nat>, g: map<nat, real>): real
    requires keys <= g.Keys
    decreases keys
  {
    if keys == {} then 0.0
    else
      var k :| k in keys;
      g[k] + SumOver(keys - {k}, g)
  }

  /** The mean weight gap over the matching genes, 0 when none match. */
  ghost function MeanWeightGap(mx: seq<ConnectionGene>, mn: seq<ConnectionGene>, w: map<ConnectionGene, real>): real
    requires Weighs(w, mx, mn)
  {
    var g := WeightGaps(mx, mn, w);
    if |g.Keys| == 0 then 0.0 else SumOver(g.Keys, g) / (|g.Keys| as real)
  }

  /** The distance measured from the genome holding the newest gene, `mx`,
   *  to the other one, `mn`. */
  ghost function OrderedDistance(mx: seq<ConnectionGene>, mn: seq<ConnectionGene>, w: map<ConnectionGene, real>): real
    requires Weighs(w, mx, mn)
  {
    var e := ExcessCount(SortByInnovation(mx), mn);
    (e as real) * EXCESS_WEIGHT + (DisjointCount(mx, mn, e) as real) * DISJOINT_WEIGHT
      + MeanWeightGap(mx, mn, w) * MATCHING_WEIGHT
  }

  /** The distance of genome `a` (the receiver) to genome `b`, the genes
   *  weighing what `w` says: `b` counts as the newer genome only when its
   *  newest gene is strictly newer than every gene of `a`. */
  ghost function Distance(a: seq<ConnectionGene>, b: seq<ConnectionGene>, w: map<ConnectionGene, real>): real
    requires Weighs(w, a, b)
  {
    if SecondIsMax(a, b) then OrderedDistance(b, a, w) else OrderedDistance(a, b, w)
  }

  /** A sum may take its numbers in any order: any number can come first. */
  lemma {:induction false} SumOverPick(keys: set<nat>, k: nat, g: map<nat, real>)
    requires keys <= g.Keys && k in keys
    ensures SumOver(keys, g) == g[k] + SumOver(keys - {k}, g)
    decreases keys
  {
    var j :| j in keys && SumOver(keys, g) == g[j] + SumOver(keys - {j}, g);
    if j != k {
      SumOverPick(keys - {j}, k, g);
      SumOverPick(keys - {k}, j, g);
      assert keys - {j} - {k} == keys - {k} - {j};
    }
  }

  /** A sum of values none of which is negative is not negative, and it is
   *  0 when every value is. */
  lemma {:induction false} SumOverBounds(keys: set<nat>, g: map<nat, real>)
    requires keys <= g.Keys && forall k | k in keys :: g[k] >= 0.0
    ensures SumOver(keys, g) >= 0.0
    ensures (forall k | k in keys :: g[k] == 0.0) ==> SumOver(keys, g) == 0.0
    decreases keys
  {
    if keys != {} {
      var k :| k in keys && SumOver(keys, g) == g[k] + SumOver(keys - {k}, g);
      SumOverBounds(keys - {k}, g);
    }
  }

  /** In a list without repeated numbers the first and the last gene with a
   *  number are one gene. */
  lemma FirstIsLast(cs: seq<ConnectionGene>, k: nat)
    requires DistinctInnovations(cs) && k in Innovations(cs)
    ensures FirstGene(cs, k) == LastGene(cs, k)
  {
    var f, l := FirstIndexOf(cs, k), LastIndexOf(cs, k);
    assert f >= 0 && l >= 0 by {
      var c :| c in cs && c.innovation == k;
      var j :| 0 <= j < |cs| && cs[j] == c;
    }
  }

  /** The mean weight gap is never negative. */
  lemma MeanWeightGapNonNegative(mx: seq<ConnectionGene>, mn: seq<ConnectionGene>, w: map<ConnectionGene, real>)
    requires Weighs(w, mx, mn)
    ensures MeanWeightGap(mx, mn, w) >= 0.0
  {
    var g := WeightGaps(mx, mn, w);
    SumOverBounds(g.Keys, g);
    if |g.Keys| != 0 {
      QuotientNonNegative(SumOver(g.Keys, g), |g.Keys| as real);
    }
  }

  lemma QuotientNonNegative(t: real, n: real)
    requires t >= 0.0 && n > 0.0
    ensures t / n >= 0.0
  {
    assert (t / n) * n == t;
  }

  /** Excess and disjoint genes together are the genes of both lists that
   *  do not match, so the counting part of the distance is the number of
   *  unmatched genes, and no part of the distance is negative. */
  lemma DistanceParts(a: seq<ConnectionGene>, b: seq<ConnectionGene>, w: map<ConnectionGene, real>)
    requires Weighs(w, a, b)
    ensures Distance(a, b, w) == ((|a| + |b| - 2 * |Matching(a, b)|) as real)
      + MeanWeightGap(if SecondIsMax(a, b) then b else a, if SecondIsMax(a, b) then a else b, w) * MATCHING_WEIGHT
    ensures |Matching(a, b)| <= |a| && |Matching(a, b)| <= |b|
    ensures Distance(a, b, w) >= 0.0
  {
    InnovationsCardBound(a);
    InnovationsCardBound(b);
    SubsetCard(Matching(a, b), Innovations(a));
    SubsetCard(Matching(a, b), Innovations(b));
    if SecondIsMax(a, b) {
      MatchingSymmetric(a, b);
      OrderedParts(b, a, w);
    } else {
      OrderedParts(a, b, w);
    }
  }

  lemma OrderedParts(mx: seq<ConnectionGene>, mn: seq<ConnectionGene>, w: map<ConnectionGene, real>)
    requires Weighs(w, mx, mn)
    requires |Matching(mx, mn)| <= |mx| && |Matching(mx, mn)| <= |mn|
    ensures OrderedDistance(mx, mn, w) == ((|mx| + |mn| - 2 * |Matching(mx, mn)|) as real) + MeanWeightGap(mx, mn, w) * MATCHING_WEIGHT
    ensures OrderedDistance(mx, mn, w) >= 0.0
  {
    MeanWeightGapNonNegative(mx, mn, w);
  }

  /** A genome whose innovation numbers are all different is at distance 0
   *  from itself. */
  lemma SelfDistance(a: seq<ConnectionGene>, w: map<ConnectionGene, real>)
    requires Weighs(w, a, a) && DistinctInnovations(a)
    ensures Distance(a, a, w) == 0.0
  {
    DistanceParts(a, a, w);
    DistinctInnovationsCard(a);
    assert Matching(a, a) == Innovations(a);
    var g := WeightGaps(a, a, w);
    forall k | k in g.Keys ensures g[k] == 0.0 {
      FirstIsLast(a, k);
    }
    MeanWeightGapZero(a, a, w);
  }

  /** When every matching gene carries the same weight in both lists, the
   *  mean weight gap is 0. */
  lemma MeanWeightGapZero(mx: seq<ConnectionGene>, mn: seq<ConnectionGene>, w: map<ConnectionGene, real>)
    requires Weighs(w, mx, mn)
    requires forall k | k in WeightGaps(mx, mn, w) :: WeightGaps(mx, mn, w)[k] == 0.0
    ensures MeanWeightGap(mx, mn, w) == 0.0
  {
    var g := WeightGaps(mx, mn, w);
    SumOverBounds(g.Keys, g);
    if |g.Keys| != 0 {
      ZeroQuotient(|g.Keys| as real);
    }
  }

  lemma ZeroQuotient(n: real)
    requires n > 0.0
    ensures 0.0 / n == 0.0
  {
    assert (0.0 / n) * n == 0.0;
  }

  /** Between genomes without repeated innovation numbers the distance is
   *  the same whichever genome measures it. */
  lemma DistanceSymmetric(a: seq<ConnectionGene>, b: seq<ConnectionGene>, w: map<ConnectionGene, real>)
    requires Weighs(w, a, b) && DistinctInnovations(a) && DistinctInnovations(b)
    ensures Distance(a, b, w) == Distance(b, a, w)
  {
    if !SecondIsMax(a, b) && !SecondIsMax(b, a) {
      DistanceParts(a, b, w);
      DistanceParts(b, a, w);
      MatchingSymmetric(a, b);
      MeanWeightGapSwap(a, b, w);
    }
  }

  lemma MatchingSymmetric(a: seq<ConnectionGene>, b: seq<ConnectionGene>)
    ensures Matching(a, b) == Matching(b, a)
  {
    assert forall k :: k in Matching(a, b) <==> k in Matching(b, a);
  }

  /** Between lists without repeated innovation numbers the mean weight gap
   *  does not depend on which list is the "max" one. */
  lemma MeanWeightGapSwap(a: seq<ConnectionGene>, b: seq<ConnectionGene>, w: map<ConnectionGene, real>)
    requires Weighs(w, a, b) && DistinctInnovations(a) && DistinctInnovations(b)
    ensures MeanWeightGap(a, b, w) == MeanWeightGap(b, a, w)
  {
    var g, h := WeightGaps(a, b, w), WeightGaps(b, a, w);
    GapsAgree(a, b, w);
    SumOverSame(g.Keys, g, h);
  }

  lemma GapsAgree(a: seq<ConnectionGene>, b: seq<ConnectionGene>, w: map<ConnectionGene, real>)
    requires Weighs(w, a, b) && DistinctInnovations(a) && DistinctInnovations(b)
    ensures WeightGaps(a, b, w).Keys == WeightGaps(b, a, w).Keys
    ensures forall k | k in WeightGaps(a, b, w) :: WeightGaps(a, b, w)[k] == WeightGaps(b, a, w)[k]
  {
    var g, h := WeightGaps(a, b, w), WeightGaps(b, a, w);
    forall k | k in g ensures k in h && g[k] == h[k] {
      FirstIsLast(a, k);
      FirstIsLast(b, k);
      AbsDiffSymmetric(w[LastGene(a, k)], w[FirstGene(b, k)]);
    }
    assert g.Keys == h.Keys;
  }

  /** Sums over maps that agree on the summed numbers are equal. */
  lemma {:induction false} SumOverSame(keys: set<nat>, g: map<nat, real>, h: map<nat, real>)
    requires keys <= g.Keys && keys <= h.Keys
    requires forall k | k in keys :: g[k] == h[k]
    ensures SumOver(keys, g) == SumOver(keys, h)
    decreases keys
  {
    if keys != {} {
      var k :| k in keys && SumOver(keys, g) == g[k] + SumOver(keys - {k}, g);
      SumOverPick(keys, k, h);
      SumOverSame(keys - {k}, g, h);
    }
  }

  /** The scan over one list for a number above `from`: the running maximum
   *  and whether it rose. */
  method ScanNewest(cs: seq<ConnectionGene>, from: nat) returns (m: nat, rose: bool)
    ensures rose <==> MaxInnovation(cs) > from
    ensures m == if rose then MaxInnovation(cs) else from
  {
    m, rose := from, false;
    for i := 0 to |cs|
      invariant rose <==> MaxInnovation(cs[..i]) > from
      invariant m == if rose then MaxInnovation(cs[..i]) else from
    {
      assert cs[..i + 1][..i] == cs[..i];
      if cs[i].innovation > m {
        m, rose := cs[i].innovation, true;
      }
    }
    assert cs[..|cs|] == cs;
  }

  /** The matching genes of the "max" list `mx` and the other list `mn`,
   *  keyed by innovation number: the last gene of `mx` with a number and
   *  the first gene of `mn` with it. */
  method MatchingPairs(mx: seq<ConnectionGene>, mn: seq<ConnectionGene>)
    returns (maxMatchings: map<nat, ConnectionGene>, minMatchings: map<nat, ConnectionGene>)
    ensures maxMatchings.Keys == Matching(mx, mn) && minMatchings.Keys == Matching(mx, mn)
    ensures forall k | k in maxMatchings :: maxMatchings[k] == LastGene(mx, k) && minMatchings[k] == FirstGene(mn, k)
  {
    maxMatchings, minMatchings := map[], map[];
    for i := 0 to |mx|
      invariant maxMatchings.Keys == Matching(mx[..i], mn) && minMatchings.Keys == maxMatchings.Keys
      invariant forall k | k in maxMatchings :: maxMatchings[k] == LastGene(mx[..i], k) && minMatchings[k] == FirstGene(mn, k)
    {
      var maxgc := mx[i];
      assert mx[..i + 1] == mx[..i] + [maxgc];
      AppendInnovation(mx[..i], maxgc);
      var matchingIndex := FirstIndexOf(mn, maxgc.innovation);
      if matchingIndex >= 0 {
        maxMatchings := maxMatchings[maxgc.innovation := maxgc];
        var mingc := mn[matchingIndex];
        minMatchings := minMatchings[mingc.innovation := mingc];
      } else {
        assert maxgc.innovation !in Innovations(mn);
      }
      forall k | k in maxMatchings
        ensures maxMatchings[k] == LastGene(mx[..i + 1], k) && minMatchings[k] == FirstGene(mn, k)
      {
        LastGeneAppend(mx[..i], maxgc, k);
      }
    }
    assert mx[..|mx|] == mx;
  }

  /** The excess scan from the end of the sorted list down to position 1,
   *  looking for genes of `others` (a list with the genes of `mn`) in
   *  each gap. */
  method ExcessScan(sorted: seq<ConnectionGene>, others: seq<ConnectionGene>) returns (excessCount: int)
    ensures excessCount == ExcessCount(sorted, others)
  {
    excessCount := 0;
    var i := |sorted| - 1;
    while i > 0
      invariant -1 <= i < |sorted| && (i == -1 ==> |sorted| == 0)
      invariant i >= 0 ==> excessCount == var g := LowestGap(sorted, others, i + 1); if g < 0 then 0 else |sorted| - 1 - g
      invariant i < 0 ==> excessCount == 0
    {
      if Gap(sorted, others, i) {
        excessCount := |sorted| - 1 - i;
      }
      i := i - 1;
    }
  }

  /** The excess count looks at the other list's genes only as a set. */
  lemma ExcessCountSameGenes(s: seq<ConnectionGene>, ms: seq<ConnectionGene>, ns: seq<ConnectionGene>)
    requires Elements(ms) == Elements(ns)
    ensures ExcessCount(s, ms) == ExcessCount(s, ns)
  {
    forall i | 1 <= i < |s|
      ensures Gap(s, ms, i) == Gap(s, ns, i)
    {
      assert forall c :: c in ms <==> c in Elements(ns);
    }
  }

  /** The mean absolute weight difference over the matching genes, summed
   *  in whatever order the key set yields them. */
  method MeanGap(maxMatchings: map<nat, ConnectionGene>, minMatchings: map<nat, ConnectionGene>,
                 ghost mx: seq<ConnectionGene>, ghost mn: seq<ConnectionGene>, ghost w: map<ConnectionGene, real>)
    returns (weightAverage: real)
    requires Weighs(w, mx, mn)
    requires forall c | c in w :: w[c] == c.weight
    requires maxMatchings.Keys == Matching(mx, mn)
    requires minMatchings.Keys == Matching(mx, mn)
    requires forall k | k in maxMatchings :: maxMatchings[k] == LastGene(mx, k) && minMatchings[k] == FirstGene(mn, k)
    ensures weightAverage == MeanWeightGap(mx, mn, w)
  {
    weightAverage := 0.0;
    if |maxMatchings| != 0 {
      ghost var g := WeightGaps(mx, mn, w);
      forall k | k in maxMatchings.Keys
        ensures k in minMatchings && k in g && g[k] == AbsDiff(maxMatchings[k].weight, minMatchings[k].weight)
      {
        GapOf(k, maxMatchings[k], minMatchings[k], mx, mn, w);
      }
      var sum := SumGaps(maxMatchings, minMatchings, g);
      weightAverage := sum / (|maxMatchings| as real);
    }
  }

  /** The matching part of the distance: how many innovation numbers the
   *  two lists share, and the mean weight gap over them. */
  method MatchStats(mx: seq<ConnectionGene>, mn: seq<ConnectionGene>, ghost w: map<ConnectionGene, real>)
    returns (matched: int, weightAverage: real)
    requires Weighs(w, mx, mn)
    requires forall c | c in w :: w[c] == c.weight
    ensures matched == |Matching(mx, mn)|
    ensures weightAverage == MeanWeightGap(mx, mn, w)
  {
    var maxMatchings, minMatchings := MatchingPairs(mx, mn);
    matched := |maxMatchings|;
    assert |maxMatchings| == |maxMatchings.Keys|;
    weightAverage := MeanGap(maxMatchings, minMatchings, mx, mn, w);
  }

  /** The loop summing the absolute weight differences over the keys of
   *  `maxMatchings`, in whatever order the key set yields them; `g` holds
   *  the differences. */
  method SumGaps(maxMatchings: map<nat, ConnectionGene>, minMatchings: map<nat, ConnectionGene>, ghost g: map<nat, real>)
    returns (sum: real)
    requires forall k | k in maxMatchings.Keys ::
      k in minMatchings && k in g && g[k] == AbsDiff(maxMatchings[k].weight, minMatchings[k].weight)
    ensures maxMatchings.Keys <= g.Keys && sum == SumOver(maxMatchings.Keys, g)
  {
    sum := 0.0;
    var todo := maxMatchings.Keys;
    while todo != {}
      invariant todo <= maxMatchings.Keys
      invariant sum + SumOver(todo, g) == SumOver(maxMatchings.Keys, g)
      decreases |todo|
    {
      var k :| k in todo;
      sum := sum + AbsDiff(maxMatchings[k].weight, minMatchings[k].weight);
      SumOverPick(todo, k, g);
      todo := todo - {k};
    }
  }

  lemma GapOf(k: nat, hi: ConnectionGene, lo: ConnectionGene, mx: seq<ConnectionGene>, mn: seq<ConnectionGene>,
              w: map<ConnectionGene, real>)
    requires Weighs(w, mx, mn) && k in Matching(mx, mn)
    requires hi == LastGene(mx, k) && lo == FirstGene(mn, k)
    requires w[hi] == hi.weight && w[lo] == lo.weight
    ensures WeightGaps(mx, mn, w)[k] == AbsDiff(hi.weight, lo.weight)
  {
  }

  /** Sorting keeps the genes of a list. */
  lemma SortKeepsGenes(cs: seq<ConnectionGene>)
    ensures Elements(SortByInnovation(cs)) == Elements(cs)
  {
    var r := SortByInnovation(cs);
    assert forall c :: c in r <==> c in multiset(cs);
  }

  /** The counts the source assembles the distance from: the length of the
   *  other genome's list, which is the sorted list itself when a genome is
   *  measured against itself, and the number of matched genes. */
  lemma DistanceOf(mx: seq<ConnectionGene>, mn: seq<ConnectionGene>, w: map<ConnectionGene, real>,
                   sorted: seq<ConnectionGene>, others: seq<ConnectionGene>,
                   matched: int, e: int, avg: real, d: real)
    requires Weighs(w, mx, mn)
    requires sorted == SortByInnovation(mx)
    requires others == mn || (others == sorted && mx == mn)
    requires matched == |Matching(mx, mn)|
    requires e == ExcessCount(sorted, others)
    requires avg == MeanWeightGap(mx, mn, w)
    requires d == (e as real) * EXCESS_WEIGHT + (((|others| - matched) + (|sorted| - matched - e)) as real) * DISJOINT_WEIGHT
      + avg * MATCHING_WEIGHT
    ensures d == OrderedDistance(mx, mn, w)
  {
    assert |sorted| == |mx| by {
      assert |multiset(sorted)| == |multiset(mx)|;
    }
    assert |others| == |mn| && e == ExcessCount(sorted, mn) by {
      if others != mn {
        SortKeepsGenes(mx);
        ExcessCountSameGenes(sorted, others, mn);
      }
    }
  }

}
