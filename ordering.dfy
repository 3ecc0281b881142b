/**
 * The min-max order the heap is meant to keep: a value on an even (max) level
 * is at least every value below it, a value on an odd (min) level at most
 * every value below it. It is stated locally, against the parent and the
 * grandparent of each position, and the lemmas below derive what the two
 * extraction routines rely on: the root holds the largest value, and the
 * smallest value sits at the root or at one of its sons.
 */
module Ordering {
  import opened Topology
  import opened Termination
  import opened HeapSpec

  /** Position `j` respects the level of the ancestor `a`. */
  predicate RespectsLevel(s: seq<int>, a: int, j: int)
    requires 0 <= a < |s| && 0 <= j < |s|
  {
    if IndexDepth(a) % 2 == 0 then s[j] <= s[a] else s[a] <= s[j]
  }

  /** Position `j` respects the levels of its parent and of its grandparent. */
  predicate OrderedAt(s: seq<int>, j: int)
    requires 0 < j < |s|
  {
    RespectsLevel(s, Parent(j), j) && (Parent(j) > 0 ==> RespectsLevel(s, Parent(Parent(j)), j))
  }

  /** Every position below the root respects the levels of its parent and of its grandparent. */
  predicate Ordered(s: seq<int>)
  {
    forall j :: 0 < j < |s| ==> OrderedAt(s, j)
  }

  /** The min-max order itself: every position respects the level of every ancestor. */
  ghost predicate MinMaxOrdered(s: seq<int>)
  {
    forall a, j :: 0 <= j < |s| && IsAncestor(a, j) ==> RespectsLevel(s, a, j)
  }

  /** The local order carries along the path from `j` up to any ancestor. */
  lemma {:induction false} OrderedAlongPath(s: seq<int>, a: int, j: int)
    requires Ordered(s) && j < |s| && IsAncestor(a, j)
    ensures RespectsLevel(s, a, j)
    decreases j
  {
    var p := Parent(j);
    assert OrderedAt(s, j);
    if a != p {
      assert IsAncestor(a, p);
      if IndexDepth(a) % 2 == IndexDepth(p) % 2 {
        OrderedAlongPath(s, a, p);
      } else if a != Parent(p) {
        assert IsAncestor(a, Parent(p));
        ParentLevelFlips(p);
        OrderedAlongPath(s, a, Parent(p));
      }
    }
  }

  /** Checking each position against its parent and grandparent is the same as checking it against every ancestor. */
  lemma OrderedIsMinMax(s: seq<int>)
    ensures Ordered(s) <==> MinMaxOrdered(s)
  {
    if Ordered(s) {
      forall a, j | 0 <= j < |s| && IsAncestor(a, j)
        ensures RespectsLevel(s, a, j)
      {
        OrderedAlongPath(s, a, j);
      }
    }
    if MinMaxOrdered(s) {
      forall j | 0 < j < |s|
        ensures OrderedAt(s, j)
      {
        assert IsAncestor(Parent(j), j);
        if Parent(j) > 0 {
          assert IsAncestor(Parent(Parent(j)), Parent(j));
          assert IsAncestor(Parent(Parent(j)), j);
        }
      }
    }
  }

  /** extractMax reports the largest value of an ordered heap. */
  lemma MaxAtRoot(s: seq<int>)
    requires Ordered(s) && |s| > 0
    ensures forall k :: 0 <= k < |s| ==> s[k] <= s[0]
  {
    forall k | 0 < k < |s|
      ensures s[k] <= s[0]
    {
      RootIsAncestor(k);
      OrderedAlongPath(s, 0, k);
    }
  }

  /** extractMin reports the smallest value of an ordered heap. */
  lemma MinNearRoot(s: seq<int>)
    requires Ordered(s) && |s| > 0
    ensures var m := ChildInd(s, 0, Smallest);
      forall k :: 0 <= k < |s| ==> s[m] <= s[k]
  {
    var m := ChildInd(s, 0, Smallest);
    ChildIndIsBest(s, 0, Smallest);
    ParentOfSons(0);
    DepthOfSons(0);
    forall k | 0 <= k < |s|
      ensures s[m] <= s[k]
    {
      if k >= 3 {
        SonOfRootIsAncestor(k);
        if IsAncestor(1, k) {
          OrderedAlongPath(s, 1, k);
          assert Parent(1) == 0 && s[m] <= s[1];
        } else {
          OrderedAlongPath(s, 2, k);
          assert Parent(2) == 0 && s[m] <= s[2];
        }
      } else if k > 0 {
        assert Parent(k) == 0;
      }
    }
  }

  /** In a build, a son of the root never moves: it has no grandparent and a build never looks down from an odd level. */
  lemma RootSonStaysInBuild(s: seq<int>, k: int)
    requires (k == 1 || k == 2) && k < |s|
    ensures Repair(s, k, Build) == s
  {
    DepthOfSons(0);
    assert RepairTarget(s, k, Build) == k;
  }

  /** On [0, 2, 1] the root's downward exchange goes to the right son: the scan finds no grandson and falls back to it. */
  lemma RootExchangeOnThree()
    ensures RepairTarget([0, 2, 1], 0, Build) == 2
  {
    var s := [0, 2, 1];
    assert GrandchildScan(s, 0, 4) == (0, 0);
    assert GrandchildIndex(s, 0, Largest) == 2;
    assert HasGrandchild(3, 0);
    assert MaxDownTarget(s, 0) == 2;
  }

  /** On three values the first build pass changes nothing: the root's sons stay put and the root is not visited. */
  lemma OddPassOnThree(s: seq<int>)
    requires |s| == 3
    ensures OddLevelsPass(s, 3) == s
  {
    DepthOfSons(0);
    RootSonStaysInBuild(s, 1);
    RootSonStaysInBuild(s, 2);
    assert OddLevelsPass(s, 1) == s;
    assert OddLevelsPass(s, 2) == s;
  }

  /** The root of [0, 2, 1] takes the right son's value, which then stays put. */
  lemma RootRepairOnThree()
    ensures Repair([0, 2, 1], 0, Build) == [1, 2, 0]
  {
    var s := [0, 2, 1];
    RootExchangeOnThree();
    var t := Swapped(s, 0, 2);
    assert t == [1, 2, 0];
    assert Repair(s, 0, Build) == Repair(t, 2, Build);
    RootSonStaysInBuild(t, 2);
  }

  /**
   * The constructor, as written, can leave a heap out of order: on [0, 2, 1]
   * the child test passes for the root's left son at size 3, the grandson scan
   * then falls back to the right son alone, and the root takes 1 while its left
   * son keeps 2.
   */
  lemma BuildLeavesDisorder()
    ensures Built([0, 2, 1]) == [1, 2, 0]
    ensures !Ordered([1, 2, 0])
  {
    OddPassOnThree([0, 2, 1]);
    EvenPassOnThree();
    assert Parent(1) == 0;
    assert !OrderedAt([1, 2, 0], 1);
  }

  /** The second build pass on [0, 2, 1] skips the odd-level sons and repairs the root. */
  lemma EvenPassOnThree()
    ensures EvenLevelsPass([0, 2, 1], 0) == [1, 2, 0]
  {
    var s := [0, 2, 1];
    DepthOfSons(0);
    assert EvenLevelsPass(s, 2) == s;
    assert EvenLevelsPass(s, 1) == s;
    RootRepairOnThree();
  }

  /** The first build pass leaves a heap alone when each repair it makes does. */
  lemma {:induction false} OddPassKeeps(s: seq<int>, k: int)
    requires 0 <= k <= |s|
    requires forall j :: 0 <= j < k && IndexDepth(j) % 2 == 1 ==> Repair(s, j, Build) == s
    ensures OddLevelsPass(s, k) == s
    decreases k
  {
    if k > 0 {
      OddPassKeeps(s, k - 1);
    }
  }

  /** The second build pass leaves a heap alone when each repair it makes does. */
  lemma {:induction false} EvenPassKeeps(s: seq<int>, k: int)
    requires 0 <= k <= |s|
    requires forall j :: k <= j < |s| && IndexDepth(j) % 2 == 0 ==> Repair(s, j, Build) == s
    ensures EvenLevelsPass(s, k) == s
    decreases |s| - k
  {
    if k < |s| {
      EvenPassKeeps(s, k + 1);
    }
  }

  /** In a build, the root of [9, 5, 9, 1, 9, 9, 9] stays: no son or examined grandson is larger. */
  lemma RootStaysOnSeven(s: seq<int>)
    requires s == [9, 5, 9, 1, 9, 9, 9]
    ensures Repair(s, 0, Build) == s
  {
    assert GrandchildScan(s, 0, 4).0 == 0;
    assert GrandchildIndex(s, 0, Largest) == 0;
    assert ChildInd(s, 0, Largest) == 0;
    assert RepairTarget(s, 0, Build) == 0;
  }

  /**
   * In a build, the 1 at position 3 of [9, 5, 9, 1, 9, 9, 9] stays. It counts
   * as having a son, because its left son 7 is not above the size, so it is
   * not exchanged with the 5 at its parent.
   */
  lemma PositionThreeStays(s: seq<int>)
    requires s == [9, 5, 9, 1, 9, 9, 9]
    ensures Repair(s, 3, Build) == s
  {
    DepthOfSons(1);
    assert HasChild(7, 3);
    assert ChildInd(s, 3, Largest) == 3;
    assert RepairTarget(s, 3, Build) == 3;
  }

  /** In a build, the leaves 4 to 6 of [9, 5, 9, 1, 9, 9, 9] stay: none has a son or a larger parent. */
  lemma LeafStaysOnSeven(s: seq<int>, k: int)
    requires s == [9, 5, 9, 1, 9, 9, 9] && 4 <= k < 7
    ensures Repair(s, k, Build) == s
  {
    DepthOfSons(1);
    DepthOfSons(2);
    assert IndexDepth(k) == 2;
    assert !HasChild(7, k) && !HasGrandchild(7, k);
    assert MaxDownTarget(s, k) == k;
    assert s[Parent(k)] <= s[k];
    assert MaxLevelChoice(s, k, Build, k) == k;
    assert RepairTarget(s, k, Build) == k;
  }

  /** In a build, no position of [9, 5, 9, 1, 9, 9, 9] moves. */
  lemma SevenStaysInBuild(s: seq<int>)
    requires s == [9, 5, 9, 1, 9, 9, 9]
    ensures forall j :: 0 <= j < |s| ==> Repair(s, j, Build) == s
  {
    forall j | 0 <= j < |s|
      ensures Repair(s, j, Build) == s
    {
      if j == 0 {
        RootStaysOnSeven(s);
      } else if j < 3 {
        RootSonStaysInBuild(s, j);
      } else if j == 3 {
        PositionThreeStays(s);
      } else {
        LeafStaysOnSeven(s, j);
      }
    }
  }

  /** In [9, 5, 9, 1, 9, 9, 9] the 1 at position 3, on a max level, lies below the 5 at its min-level parent. */
  lemma SevenUnordered(s: seq<int>)
    requires s == [9, 5, 9, 1, 9, 9, 9]
    ensures !Ordered(s)
  {
    DepthOfSons(0);
    assert Parent(3) == 1;
    assert !OrderedAt(s, 3);
  }

  /**
   * The same child test also blocks the exchange of a leaf with its parent:
   * the constructor leaves [9, 5, 9, 1, 9, 9, 9] as it is, although the 1 on
   * a max level lies below the 5 at its min-level parent.
   */
  lemma BuildLeavesLeafBelowParent(s: seq<int>)
    requires s == [9, 5, 9, 1, 9, 9, 9]
    ensures Built(s) == s
    ensures !Ordered(s)
  {
    SevenStaysInBuild(s);
    OddPassKeeps(s, |s|);
    EvenPassKeeps(s, 0);
    SevenUnordered(s);
  }
}
