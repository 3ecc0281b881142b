/**
 * Tree topology of the array-encoded heap: position 0 is the root, the sons of
 * position i are 2i+1 and 2i+2, and the depth of position i is floor(log2(i+1)).
 * None of these functions needs the heap's contents.
 */
module Topology {

  function Pow2(k: nat): (r: nat)
    ensures r >= 1
  {
    if k == 0 then 1 else 2 * Pow2(k - 1)
  }

  /** The level of position `ind`, counting the root as level 0. */
  function IndexDepth(ind: int): (d: nat)
    requires ind >= 0
    ensures d <= ind
  {
    if ind == 0 then 0 else 1 + IndexDepth((ind + 1) / 2 - 1)
  }

  /** The depth of position `ind` is floor(log2(ind + 1)): a power of two lies in (ind + 1) / 2 .. ind + 1. */
  lemma {:induction false} DepthBounds(ind: int)
    requires ind >= 0
    ensures Pow2(IndexDepth(ind)) <= ind + 1 < 2 * Pow2(IndexDepth(ind))
    decreases ind
  {
    if ind > 0 {
      DepthBounds((ind + 1) / 2 - 1);
    }
  }

  /**
   * The parent position, or -1 for the root. The source truncates the division;
   * for every argument at least -1 that agrees with Dafny's division, and below
   * that both give a negative quotient and so -1.
   */
  function Parent(index: int): (r: int)
    ensures r >= -1
    ensures r == -1 <==> index <= 0
    ensures index > 0 ==> LeftSon(r) == index || RightSon(r) == index
  {
    var parentInd := (index + 1) / 2 - 1;
    if parentInd < 0 then -1 else parentInd
  }

  /** Left sons sit at odd positions, below their parent. */
  function LeftSon(current: int): (r: int)
    ensures current >= 0 ==> current < r && r % 2 == 1
  {
    (current + 1) * 2 - 1
  }

  /** The right son follows the left son, at an even position. */
  function RightSon(current: int): (r: int)
    ensures r == LeftSon(current) + 1
    ensures current >= 0 ==> r % 2 == 0
  {
    (current + 1) * 2
  }

  lemma ParentOfSons(i: int)
    requires i >= 0
    ensures Parent(LeftSon(i)) == i && Parent(RightSon(i)) == i
    ensures LeftSon(i) == 2 * i + 1 && RightSon(i) == 2 * i + 2
  {
  }

  lemma Pow2Monotonic(a: nat, b: nat)
    requires a < b
    ensures 2 * Pow2(a) <= Pow2(b)
    decreases b
  {
    if a + 1 < b {
      Pow2Monotonic(a, b - 1);
    }
  }

  /** The bounds in IndexDepth's contract determine the depth: it is floor(log2(i+1)). */
  lemma DepthUnique(i: int, d: nat)
    requires i >= 0
    requires Pow2(d) <= i + 1 < 2 * Pow2(d)
    ensures IndexDepth(i) == d
  {
    DepthBounds(i);
    var e := IndexDepth(i);
    if e < d {
      Pow2Monotonic(e, d);
    } else if d < e {
      Pow2Monotonic(d, e);
    }
  }

  /** A son lies exactly one level below its parent. */
  lemma DepthOfParent(i: int)
    requires i > 0
    ensures IndexDepth(Parent(i)) + 1 == IndexDepth(i)
  {
  }

  /** The parent and the grandparent lie one and two levels up. */
  lemma DepthOfAncestors(i: int)
    requires i >= 0
    ensures i > 0 ==> IndexDepth(Parent(i)) + 1 == IndexDepth(i)
    ensures Parent(i) > 0 ==> IndexDepth(Parent(Parent(i))) + 2 == IndexDepth(i)
  {
    if i > 0 {
      DepthOfParent(i);
      if Parent(i) > 0 {
        DepthOfParent(Parent(i));
      }
    }
  }

  /** A parent lies on a level of the other kind (max or min). */
  lemma ParentLevelFlips(i: int)
    requires i > 0
    ensures IndexDepth(Parent(i)) % 2 != IndexDepth(i) % 2
  {
    DepthOfParent(i);
    OneLevelApart(IndexDepth(Parent(i)), IndexDepth(i));
  }

  /** A grandparent lies on a level of the same kind. */
  lemma GrandparentLevelSame(i: int)
    requires Parent(i) > 0
    ensures 0 <= Parent(Parent(i)) < Parent(i) < i
    ensures IndexDepth(Parent(Parent(i))) % 2 == IndexDepth(i) % 2
  {
    DepthOfParent(i);
    DepthOfParent(Parent(i));
    TwoLevelsApart(IndexDepth(Parent(Parent(i))), IndexDepth(i));
  }

  lemma OneLevelApart(x: int, y: int)
    requires x + 1 == y
    ensures x % 2 != y % 2
  {
  }

  lemma TwoLevelsApart(x: int, y: int)
    requires x + 2 == y
    ensures x % 2 == y % 2
  {
  }

  lemma DepthOfSons(i: int)
    requires i >= 0
    ensures IndexDepth(LeftSon(i)) == IndexDepth(i) + 1
    ensures IndexDepth(RightSon(i)) == IndexDepth(i) + 1
  {
    ParentOfSons(i);
    DepthOfParent(LeftSon(i));
    DepthOfParent(RightSon(i));
  }

  /** Position `a` lies on the path from position `d` up to the root, strictly above `d`. */
  ghost predicate IsAncestor(a: int, d: int)
    decreases d
  {
    0 <= a < d && (Parent(d) == a || IsAncestor(a, Parent(d)))
  }

  lemma {:induction false} RootIsAncestor(k: int)
    requires k > 0
    ensures IsAncestor(0, k)
    decreases k
  {
    if Parent(k) != 0 {
      RootIsAncestor(Parent(k));
    }
  }

  /** Every position below the root's sons descends from one of them. */
  lemma {:induction false} SonOfRootIsAncestor(k: int)
    requires k >= 3
    ensures IsAncestor(1, k) || IsAncestor(2, k)
    decreases k
  {
    var p := Parent(k);
    if p != 1 && p != 2 {
      SonOfRootIsAncestor(p);
    }
  }
}
