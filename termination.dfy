/**
 * The exchange of two positions, and the measure that proves the repair routine
 * terminates. Every exchange the routine makes is between a position and its
 * son or grandson, and leaves the larger of the two values on top when the upper
 * position is on an even (max) level and the smaller one when it is on an odd
 * (min) level. Weighting each value by +(n - depth) on even levels and by
 * -(n - depth) on odd levels, such an exchange strictly raises the weighted sum,
 * so n * |v| minus the weighted term, summed over all positions, strictly falls
 * and never goes below zero.
 */
module Termination {
  import opened Topology

  /** Exchanges two positions; exchanging a position with itself changes nothing. */
  function Swapped(s: seq<int>, ind1: int, ind2: int): (r: seq<int>)
    requires 0 <= ind1 < |s| && 0 <= ind2 < |s|
    ensures |r| == |s| && r[ind1] == s[ind2] && r[ind2] == s[ind1]
    ensures forall k :: 0 <= k < |s| && k != ind1 && k != ind2 ==> r[k] == s[k]
  {
    if ind1 == ind2 then s else s[ind1 := s[ind2]][ind2 := s[ind1]]
  }

  /** An exchange only rearranges the contents. */
  lemma SwappedPermutes(s: seq<int>, ind1: int, ind2: int)
    requires 0 <= ind1 < |s| && 0 <= ind2 < |s|
    ensures multiset(Swapped(s, ind1, ind2)) == multiset(s)
  {
  }

  function Abs(v: int): nat
  {
    if v < 0 then -v else v
  }

  function Weight(n: int, i: int): int
    requires i >= 0
  {
    var w := n - IndexDepth(i);
    if IndexDepth(i) % 2 == 0 then w else -w
  }

  lemma MulBound(c: int, n: int, v: int)
    requires -n <= c <= n
    ensures c * v <= n * Abs(v)
  {
    if v >= 0 {
      assert (n - c) * v >= 0;
    } else {
      assert (n + c) * -v >= 0;
    }
  }

  function Term(n: int, i: int, v: int): nat
    requires 0 <= i < n
  {
    MulBound(Weight(n, i), n, v);
    n * Abs(v) - Weight(n, i) * v
  }

  function MeasureUpTo(s: seq<int>, k: int): nat
    requires 0 <= k <= |s|
    decreases k
  {
    if k == 0 then 0 else MeasureUpTo(s, k - 1) + Term(|s|, k - 1, s[k - 1])
  }

  function Measure(s: seq<int>): nat
  {
    MeasureUpTo(s, |s|)
  }

  /** Overwriting one position changes the measure by that position's term alone. */
  lemma {:induction false} MeasureUpdate(s: seq<int>, k: int, j: int, x: int)
    requires 0 <= k <= |s| && 0 <= j < |s|
    ensures MeasureUpTo(s[j := x], k)
         == MeasureUpTo(s, k) + (if j < k then Term(|s|, j, x) - Term(|s|, j, s[j]) else 0)
    decreases k
  {
    if k > 0 {
      MeasureUpdate(s, k - 1, j, x);
    }
  }

  lemma ProductPositive(x: int, y: int)
    requires (x > 0 && y > 0) || (x < 0 && y < 0)
    ensures x * y > 0
  {
  }

  /** An even-level position outweighs its sons and grandsons; an odd-level one is outweighed. */
  lemma WeightGap(n: int, a: int, b: int)
    requires 0 <= a < b < n
    requires Parent(b) == a || Parent(Parent(b)) == a
    ensures if IndexDepth(a) % 2 == 0 then Weight(n, a) > Weight(n, b) else Weight(n, a) < Weight(n, b)
  {
    DepthOfParent(b);
    if Parent(b) != a {
      DepthOfParent(Parent(b));
    }
  }

  lemma ExchangeLowersTerms(n: int, a: int, b: int, va: int, vb: int)
    requires 0 <= a < n && 0 <= b < n
    requires (Weight(n, a) - Weight(n, b)) * (vb - va) > 0
    ensures Term(n, a, vb) + Term(n, b, va) < Term(n, a, va) + Term(n, b, vb)
  {
    var wa, wb := Weight(n, a), Weight(n, b);
    assert (wa * vb + wb * va) - (wa * va + wb * vb) == (wa - wb) * (vb - va);
  }

  /**
   * Position `b` is a son or grandson of `a`, and exchanging the two gives `a`
   * the value its level favours: the larger on an even level, the smaller on an
   * odd one.
   */
  predicate Improves(s: seq<int>, a: int, b: int)
  {
    0 <= a < b < |s| &&
    (Parent(b) == a || Parent(Parent(b)) == a) &&
    if IndexDepth(a) % 2 == 0 then s[b] > s[a] else s[b] < s[a]
  }

  /** Exchanging a position with its parent improves when the parent's level favours the position's value. */
  lemma ParentExchangeImproves(s: seq<int>, b: int)
    requires 0 < b < |s|
    requires IndexDepth(b) % 2 == 0 ==> s[b] < s[Parent(b)]
    requires IndexDepth(b) % 2 == 1 ==> s[b] > s[Parent(b)]
    ensures Improves(s, Parent(b), b)
  {
    ParentLevelFlips(b);
  }

  /** Exchanging a position with its grandparent improves when the grandparent's level favours the position's value. */
  lemma GrandparentExchangeImproves(s: seq<int>, b: int)
    requires 0 <= b < |s| && Parent(b) > 0
    requires IndexDepth(b) % 2 == 0 ==> s[b] > s[Parent(Parent(b))]
    requires IndexDepth(b) % 2 == 1 ==> s[b] < s[Parent(Parent(b))]
    ensures Improves(s, Parent(Parent(b)), b)
  {
    GrandparentLevelSame(b);
  }

  /** Every improving exchange lowers the measure, whichever order the two positions are passed in. */
  lemma SwapLowersMeasure(s: seq<int>, a: int, b: int)
    requires Improves(s, a, b)
    ensures Measure(Swapped(s, a, b)) < Measure(s)
    ensures Measure(Swapped(s, b, a)) < Measure(s)
  {
    var n := |s|;
    var t := s[a := s[b]];
    MeasureUpdate(s, n, a, s[b]);
    MeasureUpdate(t, n, b, s[a]);
    assert Swapped(s, a, b) == t[b := s[a]];
    assert Swapped(s, b, a) == Swapped(s, a, b);
    WeightGap(n, a, b);
    ProductPositive(Weight(n, a) - Weight(n, b), s[b] - s[a]);
    ExchangeLowersTerms(n, a, b, s[a], s[b]);
  }
}
