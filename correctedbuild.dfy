/**
 * The build with the child test that the comment on `hasChild` describes: a
 * position has a son when its left son lies inside the heap
 * (`leftSon(current) < size`). Only
 * the even-level repair of the second build pass uses that test; the first
 * pass and the odd-level repair are those of the class as written. With this
 * test the build yields a min-max heap for every input.
 *
 * The proof follows the two passes. After the first pass every odd-level value
 * is at most its odd-level grandsons. The second pass settles the even
 * positions from the last one down; before it settles position k, every pair
 * (ancestor, position) the finished heap needs holds, apart from the pairs
 * that involve an even position at most k as the upper end or as the son of
 * an odd parent. The repair at k sinks the value of k through even levels and
 * may then let a smaller value rise through odd levels.
 */
module CorrectedBuild {
  import opened Topology
  import opened Termination
  import opened HeapSpec
  import opened Ordering

  /**
   * The child test as its comment describes it: the left son exists. It
   * differs from the test as written only where the left son is one past the
   * end.
   */
  predicate FixedHasChild(n: int, current: int): (r: bool)
    ensures r <==> HasChild(n, current) && LeftSon(current) != n
  {
    LeftSon(current) < n
  }

  /** The grandchild test built on the corrected child test: the leftmost grandson exists. */
  predicate FixedHasGrandchild(n: int, current: int): (r: bool)
    ensures r <==> HasGrandchild(n, current) && LeftSon(current) != n && LeftSon(LeftSon(current)) != n
  {
    FixedHasChild(n, current) && FixedHasChild(n, LeftSon(current))
  }

  /** The downward exchange on an even level, with the corrected tests. */
  function FixedMaxDownTarget(s: seq<int>, current: int): (r: int)
    requires 0 <= current < |s|
    ensures r == current || current < r < |s|
  {
    var maxChild := ChildInd(s, current, Largest);
    var maxGrandchild := GrandchildIndex(s, current, Largest);
    if FixedHasGrandchild(|s|, current) && maxGrandchild != current then maxGrandchild
    else if FixedHasChild(|s|, current) && s[current] < s[maxChild] then maxChild
    else current
  }

  /**
   * The exchange partner of the build-mode repair with the corrected tests: on
   * an even level the downward exchange, else a larger parent of a position
   * without sons; on an odd level a larger grandparent.
   */
  function FixedBuildTarget(s: seq<int>, current: int): (r: int)
    requires 0 <= current < |s|
    ensures 0 <= r < |s|
  {
    var parent := Parent(current);
    var grandparent := Parent(parent);
    if IndexDepth(current) % 2 == 0 then
      var down := FixedMaxDownTarget(s, current);
      if down != current then down
      else if !FixedHasChild(|s|, current) && parent != -1 && s[current] < s[parent] then parent
      else current
    else if grandparent > -1 && s[current] < s[grandparent] then grandparent
    else current
  }

  /** Every exchange of the corrected repair is an improving one. */
  lemma FixedBuildTargetImproves(s: seq<int>, current: int)
    requires 0 <= current < |s|
    ensures var r := FixedBuildTarget(s, current);
      && (current < r ==> Improves(s, current, r))
      && (r < current ==> Improves(s, r, current))
  {
    var r := FixedBuildTarget(s, current);
    if IndexDepth(current) % 2 == 0 {
      ChildIndIsBest(s, current, Largest);
      GrandchildIndexIsBest(s, current, Largest);
      if r < current {
        ParentExchangeImproves(s, current);
      }
    } else if r < current {
      GrandparentExchangeImproves(s, current);
    }
  }

  /** The build-mode repair with the corrected tests. */
  function FixedRepair(s: seq<int>, current: int): (r: seq<int>)
    requires 0 <= current < |s|
    ensures |r| == |s|
    decreases Measure(s)
  {
    var target := FixedBuildTarget(s, current);
    FixedBuildTargetImproves(s, current);
    if target == current then s
    else
      if current < target then SwapLowersMeasure(s, current, target); FixedRepair(Swapped(s, current, target), target)
      else SwapLowersMeasure(s, target, current); FixedRepair(Swapped(s, current, target), target)
  }

  /** The second build pass with the corrected repair, over positions |s|-1 down to k. */
  function FixedEvenLevelsPass(s: seq<int>, k: int): (r: seq<int>)
    requires 0 <= k <= |s|
    ensures |r| == |s|
    decreases |s| - k
  {
    if k == |s| then s
    else
      var t := FixedEvenLevelsPass(s, k + 1);
      if IndexDepth(k) % 2 == 0 then FixedRepair(t, k) else t
  }

  /** The corrected build: the first pass as written, then the corrected second pass. */
  function FixedBuilt(s: seq<int>): (r: seq<int>)
    ensures |r| == |s|
  {
    FixedEvenLevelsPass(OddLevelsPass(s, |s|), 0)
  }

  /** The corrected tests differ from the tests as written only where a left son falls just past the end. */
  lemma FixedTargetAgreesAwayFromEdge(s: seq<int>, current: int)
    requires 0 <= current < |s| && LeftSon(current) != |s| && LeftSon(LeftSon(current)) != |s|
    ensures FixedBuildTarget(s, current) == RepairTarget(s, current, Build)
  {
    assert HasChild(|s|, current) == FixedHasChild(|s|, current);
    assert HasGrandchild(|s|, current) == FixedHasGrandchild(|s|, current);
  }

  lemma {:induction false} FixedRepairPermutes(s: seq<int>, current: int)
    requires 0 <= current < |s|
    ensures multiset(FixedRepair(s, current)) == multiset(s)
    decreases Measure(s)
  {
    var target := FixedBuildTarget(s, current);
    FixedBuildTargetImproves(s, current);
    if target != current {
      if current < target {
        SwapLowersMeasure(s, current, target);
      } else {
        SwapLowersMeasure(s, target, current);
      }
      SwappedPermutes(s, current, target);
      FixedRepairPermutes(Swapped(s, current, target), target);
    }
  }

  lemma {:induction false} FixedEvenLevelsPassPermutes(s: seq<int>, k: int)
    requires 0 <= k <= |s|
    ensures multiset(FixedEvenLevelsPass(s, k)) == multiset(s)
    decreases |s| - k
  {
    if k < |s| {
      FixedEvenLevelsPassPermutes(s, k + 1);
      if IndexDepth(k) % 2 == 0 {
        FixedRepairPermutes(FixedEvenLevelsPass(s, k + 1), k);
      }
    }
  }

  /** The corrected build is a permutation of its input. */
  lemma FixedBuiltPermutes(s: seq<int>)
    ensures multiset(FixedBuilt(s)) == multiset(s)
  {
    OddLevelsPassPermutes(s, |s|);
    FixedEvenLevelsPassPermutes(OddLevelsPass(s, |s|), 0);
  }

  /** The odd-level repair of a build: the value climbs the odd levels while it is below its grandparent. */
  function OddSiftUp(s: seq<int>, a: int): (r: seq<int>)
    requires 0 <= a < |s|
    ensures |r| == |s|
    decreases a
  {
    var g := Parent(Parent(a));
    if g > -1 && s[a] < s[g] then OddSiftUp(Swapped(s, a, g), g) else s
  }

  /** On an odd level both build-mode repairs only look at the grandparent. */
  lemma OddLevelTargets(s: seq<int>, a: int)
    requires 0 <= a < |s| && IndexDepth(a) % 2 == 1
    ensures var g := Parent(Parent(a));
      && RepairTarget(s, a, Build) == (if g > -1 && s[a] < s[g] then g else a)
      && FixedBuildTarget(s, a) == RepairTarget(s, a, Build)
  {
  }

  /** On an odd level the build-mode repair as written only climbs. */
  lemma {:induction false} RepairOddIsSiftUp(s: seq<int>, a: int)
    requires 0 <= a < |s| && IndexDepth(a) % 2 == 1
    ensures Repair(s, a, Build) == OddSiftUp(s, a)
    decreases a
  {
    var g := Parent(Parent(a));
    OddLevelTargets(s, a);
    if g > -1 && s[a] < s[g] {
      GrandparentLevelSame(a);
      RepairOddIsSiftUp(Swapped(s, a, g), g);
    }
  }

  /** On an odd level the corrected repair climbs the same way. */
  lemma {:induction false} FixedRepairOddIsSiftUp(s: seq<int>, a: int)
    requires 0 <= a < |s| && IndexDepth(a) % 2 == 1
    ensures FixedRepair(s, a) == OddSiftUp(s, a)
    decreases a
  {
    var g := Parent(Parent(a));
    OddLevelTargets(s, a);
    if g > -1 && s[a] < s[g] {
      GrandparentLevelSame(a);
      FixedRepairOddIsSiftUp(Swapped(s, a, g), g);
    }
  }

  // The order during the build.

  /**
   * How far the build has got: in the first pass, the odd positions below
   * `bound` are settled; in the second pass, the even positions above `done`.
   */
  datatype Stage = OddPassBelow(bound: int) | EvenPassAbove(done: int)

  /** Whether the pair of the ancestor `a` (a parent or grandparent) and position `j` must already hold. */
  predicate Required(st: Stage, a: int, j: int)
    requires 0 <= a && 0 <= j
  {
    match st
    case OddPassBelow(i) => IndexDepth(a) % 2 == 1 && IndexDepth(j) % 2 == 1 && j < i
    case EvenPassAbove(c) => if IndexDepth(a) % 2 == 1 then IndexDepth(j) % 2 == 1 || j > c else a > c
  }

  predicate ParentOk(s: seq<int>, st: Stage, j: int)
    requires 0 < j < |s|
  {
    Required(st, Parent(j), j) ==> RespectsLevel(s, Parent(j), j)
  }

  predicate GrandparentOk(s: seq<int>, st: Stage, j: int)
    requires 0 < j < |s|
  {
    Parent(j) > 0 && Required(st, Parent(Parent(j)), j) ==> RespectsLevel(s, Parent(Parent(j)), j)
  }

  /** Every pair the stage requires holds. */
  predicate Settled(s: seq<int>, st: Stage)
  {
    forall j :: 0 < j < |s| ==> ParentOk(s, st, j) && GrandparentOk(s, st, j)
  }

  /** `x` is a son or grandson of `a` whose pair with `a` the stage requires, and it is not below `a`'s grandparent. */
  predicate AboveGrandparent(s: seq<int>, st: Stage, a: int, x: int)
    requires 0 <= a < |s| && 0 < x < |s| && Parent(a) > 0
  {
    (Parent(x) == a || (Parent(x) > 0 && Parent(Parent(x)) == a)) && Required(st, a, x) ==>
      s[Parent(Parent(a))] <= s[x]
  }

  /**
   * A value rising through odd levels at `a`: every required pair holds except
   * that of `a` and its grandparent, and the grandparent's value could move
   * down to `a`.
   */
  predicate Rising(s: seq<int>, st: Stage, a: int)
    requires 0 <= a < |s|
  {
    && (forall j :: 0 < j < |s| ==> ParentOk(s, st, j) && (j != a ==> GrandparentOk(s, st, j)))
    && (Parent(a) > 0 ==> forall x :: 0 < x < |s| ==> AboveGrandparent(s, st, a, x))
  }

  /** A required pair with an even parent passes its requirement up to the odd parent above. */
  lemma RequiredUpward(st: Stage, a: int)
    requires a > 0 && Parent(a) > 0 && IndexDepth(a) % 2 == 1
    requires st.OddPassBelow? ==> a < st.bound
    ensures IndexDepth(Parent(a)) % 2 == 0 && IndexDepth(Parent(Parent(a))) % 2 == 1
    ensures Required(st, Parent(a), a) ==> Required(st, Parent(Parent(a)), Parent(a))
    ensures Required(st, Parent(Parent(a)), a)
  {
    ParentLevelFlips(a);
    GrandparentLevelSame(a);
  }

  /** A rising step applies at the odd position `a`: its value is below its grandparent's. */
  predicate RisesAt(s: seq<int>, st: Stage, a: int)
  {
    && 0 < a < |s| && IndexDepth(a) % 2 == 1 && Parent(a) > 0
    && (st.OddPassBelow? ==> a < st.bound) && s[a] < s[Parent(Parent(a))]
  }

  /** One rising step, for the pair of position `j` and its parent. */
  lemma RisingParentAt(s: seq<int>, st: Stage, a: int, j: int)
    requires RisesAt(s, st, a) && 0 < j < |s|
    requires ParentOk(s, st, j) && ParentOk(s, st, Parent(a)) && AboveGrandparent(s, st, a, j)
    ensures ParentOk(Swapped(s, a, Parent(Parent(a))), st, j)
  {
    var b := Parent(Parent(a));
    if j == b {
      RisingParentAtHole(s, st, a);
    } else if Parent(j) == b {
      RisingParentAtHoleSon(s, st, a, j);
    } else {
      RequiredUpward(st, a);
    }
  }

  /** One rising step: the new value at the grandparent `b` of `a` against the parent of `b`. */
  lemma RisingParentAtHole(s: seq<int>, st: Stage, a: int)
    requires RisesAt(s, st, a) && Parent(Parent(a)) > 0 && ParentOk(s, st, Parent(Parent(a)))
    ensures ParentOk(Swapped(s, a, Parent(Parent(a))), st, Parent(Parent(a)))
  {
    GrandparentLevelSame(a);
    ParentLevelFlips(Parent(Parent(a)));
  }

  /** One rising step: a son `j` of the grandparent `b` of `a` against the new value at `b`. */
  lemma RisingParentAtHoleSon(s: seq<int>, st: Stage, a: int, j: int)
    requires RisesAt(s, st, a) && 0 < j < |s| && Parent(j) == Parent(Parent(a)) && ParentOk(s, st, j)
    ensures ParentOk(Swapped(s, a, Parent(Parent(a))), st, j)
  {
    GrandparentLevelSame(a);
  }

  /** One rising step, for the pair of position `j` and its grandparent. */
  lemma RisingGrandparentAt(s: seq<int>, st: Stage, a: int, j: int)
    requires RisesAt(s, st, a) && 0 < j < |s| && j != Parent(Parent(a))
    requires (j != a ==> GrandparentOk(s, st, j)) && AboveGrandparent(s, st, a, j)
    ensures GrandparentOk(Swapped(s, a, Parent(Parent(a))), st, j)
  {
    RequiredUpward(st, a);
  }

  /** One rising step: a son of the new hole is not below the hole's grandparent. */
  lemma RisingBridgeSon(s: seq<int>, st: Stage, a: int, x: int)
    requires RisesAt(s, st, a) && Parent(Parent(Parent(a))) > 0
    requires 0 < x < |s| && Parent(x) == Parent(Parent(a))
    requires GrandparentOk(s, st, Parent(Parent(a))) && ParentOk(s, st, x)
    ensures AboveGrandparent(Swapped(s, a, Parent(Parent(a))), st, Parent(Parent(a)), x)
  {
    var b := Parent(Parent(a));
    RequiredUpward(st, a);
    GrandparentLevelSame(b);
  }

  /** One rising step: a grandson of the new hole is not below the hole's grandparent. */
  lemma RisingBridgeGrandson(s: seq<int>, st: Stage, a: int, x: int)
    requires RisesAt(s, st, a) && Parent(Parent(Parent(a))) > 0
    requires 0 < x < |s| && Parent(x) != Parent(Parent(a))
    requires GrandparentOk(s, st, Parent(Parent(a))) && (x != a ==> GrandparentOk(s, st, x))
    ensures AboveGrandparent(Swapped(s, a, Parent(Parent(a))), st, Parent(Parent(a)), x)
  {
    var b := Parent(Parent(a));
    RequiredUpward(st, a);
    GrandparentLevelSame(b);
  }

  lemma RisingStep(s: seq<int>, st: Stage, a: int)
    requires 0 < a < |s| && IndexDepth(a) % 2 == 1 && Parent(a) > 0
    requires st.OddPassBelow? ==> a < st.bound
    requires Rising(s, st, a) && s[a] < s[Parent(Parent(a))]
    ensures Rising(Swapped(s, a, Parent(Parent(a))), st, Parent(Parent(a)))
  {
    var p, b := Parent(a), Parent(Parent(a));
    var t := Swapped(s, a, b);
    assert RisesAt(s, st, a);
    assert ParentOk(s, st, p);
    forall j | 0 < j < |t|
      ensures ParentOk(t, st, j) && (j != b ==> GrandparentOk(t, st, j))
    {
      assert ParentOk(s, st, j) && (j != a ==> GrandparentOk(s, st, j));
      assert AboveGrandparent(s, st, a, j);
      RisingParentAt(s, st, a, j);
      if j != b {
        RisingGrandparentAt(s, st, a, j);
      }
    }
    if Parent(b) > 0 {
      assert GrandparentOk(s, st, b);
      forall x | 0 < x < |t|
        ensures AboveGrandparent(t, st, b, x)
      {
        assert ParentOk(s, st, x) && (x != a ==> GrandparentOk(s, st, x));
        if Parent(x) == b {
          RisingBridgeSon(s, st, a, x);
        } else {
          RisingBridgeGrandson(s, st, a, x);
        }
      }
    }
  }

  /** A rising value ends where the required pairs all hold. */
  lemma {:induction false} RisingSettles(s: seq<int>, st: Stage, a: int)
    requires 0 <= a < |s| && IndexDepth(a) % 2 == 1 && Rising(s, st, a)
    requires st.OddPassBelow? ==> a < st.bound
    ensures Settled(OddSiftUp(s, a), st)
    decreases a
  {
    var g := Parent(Parent(a));
    if g > -1 && s[a] < s[g] {
      GrandparentLevelSame(a);
      RisingStep(s, st, a);
      RisingSettles(Swapped(s, a, g), st, g);
    } else {
      forall j | 0 < j < |s|
        ensures ParentOk(s, st, j) && GrandparentOk(s, st, j)
      {
        if j == a && Parent(a) > 0 {
          GrandparentLevelSame(a);
        }
      }
    }
  }

  // The first pass.

  /** A grandson of `h` lies among the four positions below its sons. */
  lemma GrandsonRange(h: int, j: int)
    requires h >= 0 && j > 0 && Parent(j) > 0 && Parent(Parent(j)) == h
    ensures 4 * h + 3 <= j <= 4 * h + 6
  {
  }

  lemma OddPassSkipsEven(s: seq<int>, i: int)
    requires 0 < i <= |s| && IndexDepth(i - 1) % 2 == 0 && Settled(s, OddPassBelow(i - 1))
    ensures Settled(s, OddPassBelow(i))
  {
    forall j | 0 < j < |s|
      ensures ParentOk(s, OddPassBelow(i), j) && GrandparentOk(s, OddPassBelow(i), j)
    {
      assert ParentOk(s, OddPassBelow(i - 1), j) && GrandparentOk(s, OddPassBelow(i - 1), j);
    }
  }

  lemma OddPassStartsRising(s: seq<int>, i: int)
    requires 0 < i <= |s| && IndexDepth(i - 1) % 2 == 1 && Settled(s, OddPassBelow(i - 1))
    ensures Rising(s, OddPassBelow(i), i - 1)
  {
    forall j | 0 < j < |s|
      ensures ParentOk(s, OddPassBelow(i), j) && (j != i - 1 ==> GrandparentOk(s, OddPassBelow(i), j))
    {
      assert ParentOk(s, OddPassBelow(i - 1), j) && GrandparentOk(s, OddPassBelow(i - 1), j);
      if j == i - 1 {
        ParentLevelFlips(j);
      }
    }
    if Parent(i - 1) > 0 {
      var st, a := OddPassBelow(i), i - 1;
      forall x | 0 < x < |s|
        ensures AboveGrandparent(s, st, a, x)
      {
        if Parent(x) > 0 {
          GrandparentLevelSame(x);
        }
      }
    }
  }

  /** One step of the first pass moves the settled prefix one position on. */
  lemma OddPassStep(s: seq<int>, i: int)
    requires 0 < i <= |s| && Settled(OddLevelsPass(s, i - 1), OddPassBelow(i - 1))
    ensures Settled(OddLevelsPass(s, i), OddPassBelow(i))
  {
    var t := OddLevelsPass(s, i - 1);
    if IndexDepth(i - 1) % 2 == 1 {
      OddPassStartsRising(t, i);
      RisingSettles(t, OddPassBelow(i), i - 1);
      RepairOddIsSiftUp(t, i - 1);
      assert OddLevelsPass(s, i) == OddSiftUp(t, i - 1);
    } else {
      OddPassSkipsEven(t, i);
      assert OddLevelsPass(s, i) == t;
    }
  }

  /** The first pass leaves every odd-level value at most its odd-level grandsons among the positions it passed. */
  lemma {:induction false} OddPassSettles(s: seq<int>, i: int)
    requires 0 <= i <= |s|
    ensures Settled(OddLevelsPass(s, i), OddPassBelow(i))
    decreases i
  {
    if i > 0 {
      OddPassSettles(s, i - 1);
      OddPassStep(s, i);
    }
  }

  lemma FirstPassHandsOver(s: seq<int>)
    requires Settled(s, OddPassBelow(|s|))
    ensures Settled(s, EvenPassAbove(|s| - 1))
  {
    var st := EvenPassAbove(|s| - 1);
    forall j | 0 < j < |s|
      ensures ParentOk(s, st, j) && GrandparentOk(s, st, j)
    {
      assert ParentOk(s, OddPassBelow(|s|), j) && GrandparentOk(s, OddPassBelow(|s|), j);
    }
  }

  // The second pass.

  lemma EvenPassSkipsOdd(s: seq<int>, k: int)
    requires 0 <= k < |s| && IndexDepth(k) % 2 == 1 && Settled(s, EvenPassAbove(k))
    ensures Settled(s, EvenPassAbove(k - 1))
  {
    var st := EvenPassAbove(k - 1);
    forall j | 0 < j < |s|
      ensures ParentOk(s, st, j) && GrandparentOk(s, st, j)
    {
      assert ParentOk(s, EvenPassAbove(k), j) && GrandparentOk(s, EvenPassAbove(k), j);
    }
  }

  lemma SettledIsOrdered(s: seq<int>)
    requires Settled(s, EvenPassAbove(-1))
    ensures Ordered(s)
  {
    forall j | 0 < j < |s|
      ensures OrderedAt(s, j)
    {
      assert ParentOk(s, EvenPassAbove(-1), j) && GrandparentOk(s, EvenPassAbove(-1), j);
    }
  }

  /** Position `x` is a son or grandson of `h`, and not above the value at `h`'s grandparent. */
  predicate BelowGrandparent(s: seq<int>, h: int, x: int)
    requires 0 <= h < |s| && 0 < x < |s| && Parent(h) > 0
  {
    Parent(x) == h || (Parent(x) > 0 && Parent(Parent(x)) == h) ==> s[x] <= s[Parent(Parent(h))]
  }

  /** The pairs of position `j` while a value sinks at `h` during the settling of `k`. */
  predicate SinkingAt(s: seq<int>, k: int, h: int, j: int)
    requires 0 <= h < |s| && 0 < j < |s|
  {
    && (j != h && Parent(j) != h ==> ParentOk(s, EvenPassAbove(k - 1), j))
    && ((Parent(j) > 0 && Parent(Parent(j)) == h) || GrandparentOk(s, EvenPassAbove(k - 1), j))
  }

  /**
   * A value sinking through even levels at `h` while the second pass settles
   * `k`: every pair that must hold once `k` is settled holds, except those of
   * `h` with its parent, its sons and its grandsons; below `k`, the grandparent
   * of `h` is at least every son and grandson of `h`.
   */
  predicate Sinking(s: seq<int>, k: int, h: int)
  {
    && 0 <= k <= h < |s| && IndexDepth(h) % 2 == 0
    && (forall j :: 0 < j < |s| ==> SinkingAt(s, k, h, j))
    && (h != k ==> Parent(h) > 0 && forall x :: 0 < x < |s| ==> BelowGrandparent(s, h, x))
  }

  lemma SinkStarts(s: seq<int>, k: int)
    requires 0 <= k < |s| && IndexDepth(k) % 2 == 0 && Settled(s, EvenPassAbove(k))
    ensures Sinking(s, k, k)
  {
    forall j | 0 < j < |s|
      ensures SinkingAt(s, k, k, j)
    {
      assert ParentOk(s, EvenPassAbove(k), j) && GrandparentOk(s, EvenPassAbove(k), j);
      if Parent(j) > 0 {
        GrandparentLevelSame(j);
      }
    }
  }

  /** The left son of `h` is at most its own left son, and `h`'s parent at most the left son of `h`. */
  lemma LeftSonBelow(s: seq<int>, k: int, h: int)
    requires Sinking(s, k, h) && LeftSon(LeftSon(h)) < |s|
    ensures s[LeftSon(h)] <= s[LeftSon(LeftSon(h))]
    ensures h > 0 ==> s[Parent(h)] <= s[LeftSon(h)]
  {
    var l := LeftSon(h);
    ParentOfSons(h);
    ParentOfSons(l);
    ParentLevelFlips(l);
    assert SinkingAt(s, k, h, LeftSon(l));
    if h > 0 {
      ParentLevelFlips(h);
      assert SinkingAt(s, k, h, l);
    }
  }

  /** The right son of `h` is at most its own left son, when it has one. */
  lemma RightSonBelow(s: seq<int>, k: int, h: int)
    requires Sinking(s, k, h) && LeftSon(RightSon(h)) < |s|
    ensures s[RightSon(h)] <= s[LeftSon(RightSon(h))]
  {
    var r := RightSon(h);
    ParentOfSons(h);
    ParentOfSons(r);
    ParentLevelFlips(r);
    assert SinkingAt(s, k, h, LeftSon(r));
  }

  /** With grandsons present, both sons of `h` are at most the largest examined value, and `h`'s parent at most its left son. */
  lemma SonsBelowExamined(s: seq<int>, k: int, h: int)
    requires Sinking(s, k, h) && FixedHasGrandchild(|s|, h)
    ensures var m := GrandchildIndex(s, h, Largest);
      && m < |s| && s[LeftSon(h)] <= s[m] && s[RightSon(h)] <= s[m]
      && (h > 0 ==> s[Parent(h)] <= s[LeftSon(h)])
  {
    var n, l, r := |s|, LeftSon(h), RightSon(h);
    ParentOfSons(h);
    GrandchildIndexIsBest(s, h, Largest);
    LeftSonBelow(s, k, h);
    assert Examined(n, h, LeftSon(l));
    if LeftSon(r) < n {
      RightSonBelow(s, k, h);
      assert Examined(n, h, LeftSon(r));
    } else {
      assert Examined(n, h, r);
    }
  }

  /** The sinking stops at `h`: no exchange applies. */
  predicate SinkStopsAt(s: seq<int>, h: int)
    requires 0 <= h < |s|
  {
    && !(FixedHasGrandchild(|s|, h) && GrandchildIndex(s, h, Largest) != h)
    && !(FixedHasChild(|s|, h) && s[h] < s[ChildInd(s, h, Largest)])
    && !(!FixedHasChild(|s|, h) && Parent(h) != -1 && s[h] < s[Parent(h)])
  }

  /** Where the sinking stops, `h` respects its parent and its sons. */
  lemma StoppedParentAt(s: seq<int>, k: int, h: int, j: int)
    requires Sinking(s, k, h) && SinkStopsAt(s, h) && 0 < j < |s|
    ensures ParentOk(s, EvenPassAbove(k - 1), j)
  {
    ParentOfSons(h);
    assert SinkingAt(s, k, h, j);
    if j == h {
      ParentLevelFlips(h);
      if FixedHasChild(|s|, h) {
        ChildIndIsBest(s, h, Largest);
        ParentLevelFlips(LeftSon(h));
        assert SinkingAt(s, k, h, LeftSon(h));
      }
    } else if Parent(j) == h {
      ChildIndIsBest(s, h, Largest);
    }
  }

  /** Where the sinking stops, `h` respects its grandsons. */
  lemma StoppedGrandparentAt(s: seq<int>, k: int, h: int, j: int)
    requires Sinking(s, k, h) && SinkStopsAt(s, h) && 0 < j < |s|
    ensures GrandparentOk(s, EvenPassAbove(k - 1), j)
  {
    assert SinkingAt(s, k, h, j);
    if Parent(j) > 0 && Parent(Parent(j)) == h {
      ParentOfSons(h);
      GrandsonRange(h, j);
      GrandchildIndexIsBest(s, h, Largest);
      assert Examined(|s|, h, j);
    }
  }

  lemma SinkStops(s: seq<int>, k: int, h: int)
    requires Sinking(s, k, h) && SinkStopsAt(s, h)
    ensures Settled(s, EvenPassAbove(k - 1))
  {
    var st := EvenPassAbove(k - 1);
    forall j | 0 < j < |s|
      ensures ParentOk(s, st, j) && GrandparentOk(s, st, j)
    {
      StoppedParentAt(s, k, h, j);
      StoppedGrandparentAt(s, k, h, j);
    }
  }

  /**
   * Where the values sit when the value at `h` sinks to its grandson `g`: `g`
   * holds the largest examined value, at least both sons of `h`, and no more
   * than the grandparent of `h`.
   */
  ghost predicate GrandsonCase(s: seq<int>, k: int, h: int, g: int)
  {
    && 0 <= k <= h < g < |s| && IndexDepth(h) % 2 == 0
    && Parent(g) > 0 && Parent(Parent(g)) == h && IndexDepth(g) % 2 == 0 && s[h] < s[g]
    && (forall x :: Examined(|s|, h, x) ==> s[x] <= s[g])
    && s[LeftSon(h)] <= s[g] && s[RightSon(h)] <= s[g]
    && (h > 0 ==> s[Parent(h)] <= s[LeftSon(h)])
    && (h != k ==> Parent(h) > 0 && BelowGrandparent(s, h, g))
  }

  lemma GrandsonTarget(s: seq<int>, k: int, h: int)
    requires Sinking(s, k, h) && FixedHasGrandchild(|s|, h)
    requires GrandchildIndex(s, h, Largest) != h && GrandchildIndex(s, h, Largest) != RightSon(h)
    ensures GrandsonCase(s, k, h, GrandchildIndex(s, h, Largest))
  {
    var g := GrandchildIndex(s, h, Largest);
    ParentOfSons(h);
    GrandchildIndexIsBest(s, h, Largest);
    GrandparentLevelSame(g);
    SonsBelowExamined(s, k, h);
    if h != k {
      assert BelowGrandparent(s, h, g);
    }
  }

  /** Sinking to a grandson `g`: the pairs of `j` and its parent. */
  lemma ToGrandsonParentAt(s: seq<int>, k: int, h: int, g: int, j: int)
    requires GrandsonCase(s, k, h, g) && 0 < j < |s| && SinkingAt(s, k, h, j)
    ensures j != g && Parent(j) != g ==> ParentOk(Swapped(s, h, g), EvenPassAbove(k - 1), j)
  {
    if j == h {
      ParentLevelFlips(h);
    } else if Parent(j) == h {
      ParentOfSons(h);
    }
  }

  /** Sinking to a grandson `g`: the pairs of `j` and its grandparent. */
  lemma ToGrandsonGrandparentAt(s: seq<int>, k: int, h: int, g: int, j: int)
    requires GrandsonCase(s, k, h, g) && 0 < j < |s| && SinkingAt(s, k, h, j)
    ensures !(Parent(j) > 0 && Parent(Parent(j)) == g) ==> GrandparentOk(Swapped(s, h, g), EvenPassAbove(k - 1), j)
  {
    if j == h && Parent(h) > 0 {
      GrandparentLevelSame(h);
    } else if j != g && Parent(j) > 0 && Parent(Parent(j)) == h {
      ParentOfSons(h);
      GrandsonRange(h, j);
      assert Examined(|s|, h, j);
    }
  }

  /** Sinking to a grandson `g`: the sons and grandsons of `g` are below its new grandparent value. */
  lemma ToGrandsonBridgeAt(s: seq<int>, k: int, h: int, g: int, x: int)
    requires 0 <= k <= h < g < |s| && Parent(g) > 0 && Parent(Parent(g)) == h && IndexDepth(g) % 2 == 0
    requires 0 < x < |s| && SinkingAt(s, k, h, x)
    ensures BelowGrandparent(Swapped(s, h, g), g, x)
  {
    var st := EvenPassAbove(k - 1);
    if Parent(x) == g || (Parent(x) > 0 && Parent(Parent(x)) == g) {
      assert Required(st, g, x);
    }
  }

  lemma SinkToGrandson(s: seq<int>, k: int, h: int)
    requires Sinking(s, k, h) && FixedHasGrandchild(|s|, h)
    requires GrandchildIndex(s, h, Largest) != h && GrandchildIndex(s, h, Largest) != RightSon(h)
    ensures var g := GrandchildIndex(s, h, Largest);
      h < g < |s| && Sinking(Swapped(s, h, g), k, g)
  {
    var g := GrandchildIndex(s, h, Largest);
    var t := Swapped(s, h, g);
    GrandsonTarget(s, k, h);
    forall j | 0 < j < |t|
      ensures SinkingAt(t, k, g, j)
    {
      assert SinkingAt(s, k, h, j);
      ToGrandsonParentAt(s, k, h, g, j);
      ToGrandsonGrandparentAt(s, k, h, g, j);
    }
    forall x | 0 < x < |t|
      ensures BelowGrandparent(t, g, x)
    {
      assert SinkingAt(s, k, h, x);
      ToGrandsonBridgeAt(s, k, h, g, x);
    }
  }

  /**
   * Where the values sit when the value at `h` sinks to its right son `r`,
   * examined in place of grandsons: `r` holds the largest examined value, has
   * no sons, and is no more than the grandparent of `h`.
   */
  ghost predicate RightSonCase(s: seq<int>, k: int, h: int, r: int)
  {
    && 0 <= k <= h < r < |s| && IndexDepth(h) % 2 == 0 && r == RightSon(h) && Parent(r) == h
    && LeftSon(r) >= |s| && LeftSon(LeftSon(h)) < |s| && IndexDepth(r) % 2 == 1 && s[h] < s[r]
    && (forall x :: Examined(|s|, h, x) ==> s[x] <= s[r])
    && s[LeftSon(h)] <= s[r] && (h > 0 ==> s[Parent(h)] <= s[LeftSon(h)])
    && (h != k ==> Parent(h) > 0 && BelowGrandparent(s, h, r))
  }

  lemma RightSonTarget(s: seq<int>, k: int, h: int)
    requires Sinking(s, k, h) && FixedHasGrandchild(|s|, h) && GrandchildIndex(s, h, Largest) == RightSon(h)
    ensures RightSonCase(s, k, h, RightSon(h))
  {
    ParentOfSons(h);
    ParentOfSons(RightSon(h));
    GrandchildIndexIsBest(s, h, Largest);
    ParentLevelFlips(RightSon(h));
    SonsBelowExamined(s, k, h);
    if h != k {
      assert BelowGrandparent(s, h, RightSon(h));
    }
  }

  /** Sinking to the right son: the pairs of `j` and its parent. */
  lemma ToRightSonParentAt(s: seq<int>, k: int, h: int, r: int, j: int)
    requires RightSonCase(s, k, h, r) && 0 < j < |s| && SinkingAt(s, k, h, j)
    ensures ParentOk(Swapped(s, h, r), EvenPassAbove(k - 1), j)
  {
    if j == h {
      ParentLevelFlips(h);
    } else if Parent(j) == h {
      ParentOfSons(h);
    } else if Parent(j) == r {
      ParentOfSons(r);
    }
  }

  /** Sinking to the right son: the pairs of `j` and its grandparent. */
  lemma ToRightSonGrandparentAt(s: seq<int>, k: int, h: int, r: int, j: int)
    requires RightSonCase(s, k, h, r) && 0 < j < |s| && j != r && SinkingAt(s, k, h, j)
    ensures GrandparentOk(Swapped(s, h, r), EvenPassAbove(k - 1), j)
  {
    if j == h && Parent(h) > 0 {
      GrandparentLevelSame(h);
    } else if Parent(j) > 0 && Parent(Parent(j)) == h {
      ParentOfSons(h);
      GrandsonRange(h, j);
      assert Examined(|s|, h, j);
    } else if Parent(j) > 0 && Parent(Parent(j)) == r {
      GrandsonRange(r, j);
    }
  }

  lemma SinkToRightSon(s: seq<int>, k: int, h: int)
    requires Sinking(s, k, h) && FixedHasGrandchild(|s|, h) && GrandchildIndex(s, h, Largest) == RightSon(h)
    ensures var r := RightSon(h);
      && h < r < |s| && IndexDepth(r) % 2 == 1
      && Rising(Swapped(s, h, r), EvenPassAbove(k - 1), r)
  {
    var r, st := RightSon(h), EvenPassAbove(k - 1);
    var t := Swapped(s, h, r);
    RightSonTarget(s, k, h);
    forall j | 0 < j < |t|
      ensures ParentOk(t, st, j) && (j != r ==> GrandparentOk(t, st, j))
    {
      assert SinkingAt(s, k, h, j);
      ToRightSonParentAt(s, k, h, r, j);
      if j != r {
        ToRightSonGrandparentAt(s, k, h, r, j);
      }
    }
    if Parent(r) > 0 {
      forall x | 0 < x < |t|
        ensures AboveGrandparent(t, st, r, x)
      {
        ParentOfSons(r);
        if Parent(x) > 0 && Parent(Parent(x)) == r {
          GrandsonRange(r, x);
        }
      }
    }
  }

  /**
   * Where the values sit when the value at `h` sinks to its larger son `m`:
   * there are no grandsons, `m` holds at least both sons and the parent of
   * `h`, and no more than the grandparent of `h`.
   */
  ghost predicate SonCase(s: seq<int>, k: int, h: int, m: int)
  {
    && 0 <= k <= h < m < |s| && IndexDepth(h) % 2 == 0 && Parent(m) == h && IndexDepth(m) % 2 == 1
    && LeftSon(LeftSon(h)) >= |s| && LeftSon(m) >= |s| && s[h] < s[m]
    && s[LeftSon(h)] <= s[m] && (RightSon(h) < |s| ==> s[RightSon(h)] <= s[m])
    && (h > 0 ==> s[Parent(h)] <= s[m])
    && (h != k ==> Parent(h) > 0 && BelowGrandparent(s, h, m))
  }

  /** Sinking to a son happens only where there are no grandsons, so the son has no sons. */
  lemma SonShape(s: seq<int>, k: int, h: int)
    requires Sinking(s, k, h) && !(FixedHasGrandchild(|s|, h) && GrandchildIndex(s, h, Largest) != h)
    requires FixedHasChild(|s|, h) && s[h] < s[ChildInd(s, h, Largest)]
    ensures var m := ChildInd(s, h, Largest);
      && h < m < |s| && Parent(m) == h && IndexDepth(m) % 2 == 1
      && LeftSon(LeftSon(h)) >= |s| && LeftSon(m) >= |s|
  {
    var m := ChildInd(s, h, Largest);
    ParentOfSons(h);
    ParentLevelFlips(m);
    ChildIndIsBest(s, h, Largest);
    if FixedHasGrandchild(|s|, h) {
      SonsBelowExamined(s, k, h);
      assert false;
    }
  }

  /** The son picked as largest holds at least the value of each son. */
  lemma LargerSon(s: seq<int>, h: int)
    requires 0 <= h && LeftSon(h) < |s|
    ensures var m := ChildInd(s, h, Largest);
      m < |s| && s[LeftSon(h)] <= s[m] && (RightSon(h) < |s| ==> s[RightSon(h)] <= s[m])
  {
    ParentOfSons(h);
  }

  /** Below its grandparent, the son `m` of `h` holds at least the value at the parent of `h`. */
  lemma SonAboveGrandparent(s: seq<int>, k: int, h: int, m: int)
    requires 0 <= k <= h < m < |s| && 0 < h && Parent(m) == h && IndexDepth(h) % 2 == 0
    requires SinkingAt(s, k, h, m)
    ensures s[Parent(h)] <= s[m]
  {
    ParentLevelFlips(h);
  }

  lemma SonTarget(s: seq<int>, k: int, h: int)
    requires Sinking(s, k, h) && !(FixedHasGrandchild(|s|, h) && GrandchildIndex(s, h, Largest) != h)
    requires FixedHasChild(|s|, h) && s[h] < s[ChildInd(s, h, Largest)]
    ensures SonCase(s, k, h, ChildInd(s, h, Largest))
  {
    var m := ChildInd(s, h, Largest);
    SonShape(s, k, h);
    LargerSon(s, h);
    if h > 0 {
      assert SinkingAt(s, k, h, m);
      SonAboveGrandparent(s, k, h, m);
    }
    if h != k {
      assert BelowGrandparent(s, h, m);
    }
  }

  /** Sinking to a son `m`: the pairs of `j` and its parent. */
  lemma ToSonParentAt(s: seq<int>, k: int, h: int, m: int, j: int)
    requires SonCase(s, k, h, m) && 0 < j < |s| && SinkingAt(s, k, h, j)
    ensures ParentOk(Swapped(s, h, m), EvenPassAbove(k - 1), j)
  {
    if j == h {
      ParentLevelFlips(h);
    } else if Parent(j) == h {
      ParentOfSons(h);
    } else if Parent(j) == m {
      ParentOfSons(m);
    }
  }

  /** Sinking to a son `m`: the pairs of `j` and its grandparent. */
  lemma ToSonGrandparentAt(s: seq<int>, k: int, h: int, m: int, j: int)
    requires SonCase(s, k, h, m) && 0 < j < |s| && j != m && SinkingAt(s, k, h, j)
    ensures GrandparentOk(Swapped(s, h, m), EvenPassAbove(k - 1), j)
  {
    if j == h && Parent(h) > 0 {
      GrandparentLevelSame(h);
    } else if Parent(j) > 0 && Parent(Parent(j)) == h {
      GrandsonRange(h, j);
    } else if Parent(j) > 0 && Parent(Parent(j)) == m {
      GrandsonRange(m, j);
    }
  }

  lemma SinkToSon(s: seq<int>, k: int, h: int)
    requires Sinking(s, k, h) && !(FixedHasGrandchild(|s|, h) && GrandchildIndex(s, h, Largest) != h)
    requires FixedHasChild(|s|, h) && s[h] < s[ChildInd(s, h, Largest)]
    ensures var m := ChildInd(s, h, Largest);
      && h < m < |s| && IndexDepth(m) % 2 == 1
      && Rising(Swapped(s, h, m), EvenPassAbove(k - 1), m)
  {
    var m, st := ChildInd(s, h, Largest), EvenPassAbove(k - 1);
    var t := Swapped(s, h, m);
    SonTarget(s, k, h);
    forall j | 0 < j < |t|
      ensures ParentOk(t, st, j) && (j != m ==> GrandparentOk(t, st, j))
    {
      assert SinkingAt(s, k, h, j);
      ToSonParentAt(s, k, h, m, j);
      if j != m {
        ToSonGrandparentAt(s, k, h, m, j);
      }
    }
    if Parent(m) > 0 {
      forall x | 0 < x < |t|
        ensures AboveGrandparent(t, st, m, x)
      {
        ParentOfSons(m);
        if Parent(x) > 0 && Parent(Parent(x)) == m {
          GrandsonRange(m, x);
        }
      }
    }
  }

  /** The value at `h`, which has no sons, is below the value at its parent `q`. */
  ghost predicate SinksToParent(s: seq<int>, k: int, h: int, q: int)
  {
    && Sinking(s, k, h) && !FixedHasChild(|s|, h) && 0 < h && q == Parent(h)
    && 0 <= q < h && IndexDepth(q) % 2 == 1 && s[h] < s[q]
  }

  /** Sinking at a position without sons, below its parent: the pairs of `j` and its parent. */
  lemma ToParentParentAt(s: seq<int>, k: int, h: int, q: int, j: int)
    requires SinksToParent(s, k, h, q) && 0 < j < |s|
    ensures ParentOk(Swapped(s, h, q), EvenPassAbove(k - 1), j)
  {
    assert SinkingAt(s, k, h, j);
    if j == q {
      ParentLevelFlips(q);
    } else if Parent(j) == h {
      ParentOfSons(h);
    }
  }

  /** Sinking at a position without sons, below its parent: the pairs of `j` and its grandparent. */
  lemma ToParentGrandparentAt(s: seq<int>, k: int, h: int, q: int, j: int)
    requires SinksToParent(s, k, h, q) && 0 < j < |s| && j != q
    ensures GrandparentOk(Swapped(s, h, q), EvenPassAbove(k - 1), j)
  {
    if j == h {
      if q > 0 {
        ToParentGrandparentAtHole(s, k, h, q);
      }
    } else {
      assert SinkingAt(s, k, h, j);
      if Parent(j) > 0 && Parent(Parent(j)) == q {
        GrandparentLevelSame(j);
      } else if Parent(j) > 0 && Parent(Parent(j)) == h {
        GrandsonRange(h, j);
      }
    }
  }

  /** Sinking at a position without sons, below its parent `q`: the value moved from `q` to `h` against the grandparent. */
  lemma ToParentGrandparentAtHole(s: seq<int>, k: int, h: int, q: int)
    requires SinksToParent(s, k, h, q) && q > 0
    ensures GrandparentOk(Swapped(s, h, q), EvenPassAbove(k - 1), h)
  {
    GrandparentLevelSame(h);
    assert SinkingAt(s, k, h, q);
  }

  /** Sinking at a position without sons, below its parent: the sons and grandsons of the parent. */
  lemma ToParentBridgeAt(s: seq<int>, k: int, h: int, q: int, x: int)
    requires SinksToParent(s, k, h, q) && Parent(q) > 0 && 0 < x < |s|
    ensures AboveGrandparent(Swapped(s, h, q), EvenPassAbove(k - 1), q, x)
  {
    GrandparentLevelSame(q);
    assert SinkingAt(s, k, h, q);
    if x != h {
      assert SinkingAt(s, k, h, x);
      if Parent(x) == h {
        ParentOfSons(h);
      } else if Parent(x) > 0 && Parent(Parent(x)) == q {
        GrandsonRange(q, x);
      }
    }
  }

  lemma SinkToParent(s: seq<int>, k: int, h: int)
    requires Sinking(s, k, h) && !FixedHasChild(|s|, h) && h > 0 && s[h] < s[Parent(h)]
    ensures var q := Parent(h);
      && 0 <= q < h && IndexDepth(q) % 2 == 1
      && Rising(Swapped(s, h, q), EvenPassAbove(k - 1), q)
  {
    var q, st := Parent(h), EvenPassAbove(k - 1);
    var t := Swapped(s, h, q);
    ParentLevelFlips(h);
    assert SinksToParent(s, k, h, q);
    forall j | 0 < j < |t|
      ensures ParentOk(t, st, j) && (j != q ==> GrandparentOk(t, st, j))
    {
      ToParentParentAt(s, k, h, q, j);
      if j != q {
        ToParentGrandparentAt(s, k, h, q, j);
      }
    }
    if Parent(q) > 0 {
      forall x | 0 < x < |t|
        ensures AboveGrandparent(t, st, q, x)
      {
        ToParentBridgeAt(s, k, h, q, x);
      }
    }
  }

  /** Where the value at `h` does not sink to a grandson, the repair ends, possibly after a rise. */
  lemma SinkEnds(s: seq<int>, k: int, h: int)
    requires Sinking(s, k, h)
    requires !(FixedHasGrandchild(|s|, h) && GrandchildIndex(s, h, Largest) != h)
    ensures Settled(FixedRepair(s, h), EvenPassAbove(k - 1))
  {
    var n, st := |s|, EvenPassAbove(k - 1);
    var c := ChildInd(s, h, Largest);
    if FixedHasChild(n, h) && s[h] < s[c] {
      assert FixedBuildTarget(s, h) == c;
      SinkToSon(s, k, h);
      FixedRepairOddIsSiftUp(Swapped(s, h, c), c);
      RisingSettles(Swapped(s, h, c), st, c);
    } else if !FixedHasChild(n, h) && Parent(h) != -1 && s[h] < s[Parent(h)] {
      var q := Parent(h);
      assert FixedBuildTarget(s, h) == q;
      SinkToParent(s, k, h);
      FixedRepairOddIsSiftUp(Swapped(s, h, q), q);
      RisingSettles(Swapped(s, h, q), st, q);
    } else {
      SinkStops(s, k, h);
    }
  }

  /** The corrected repair of an even position settles it, and with it every position it moved. */
  lemma {:induction false} SinkSettles(s: seq<int>, k: int, h: int)
    requires Sinking(s, k, h)
    ensures Settled(FixedRepair(s, h), EvenPassAbove(k - 1))
    decreases |s| - h
  {
    var g := GrandchildIndex(s, h, Largest);
    if FixedHasGrandchild(|s|, h) && g != h {
      assert FixedBuildTarget(s, h) == g;
      if g == RightSon(h) {
        SinkToRightSon(s, k, h);
        FixedRepairOddIsSiftUp(Swapped(s, h, g), g);
        RisingSettles(Swapped(s, h, g), EvenPassAbove(k - 1), g);
      } else {
        SinkToGrandson(s, k, h);
        SinkSettles(Swapped(s, h, g), k, g);
      }
    } else {
      SinkEnds(s, k, h);
    }
  }

  /** The corrected second pass settles every position from the last down to k. */
  lemma {:induction false} EvenPassSettles(s: seq<int>, k: int)
    requires 0 <= k <= |s| && Settled(s, EvenPassAbove(|s| - 1))
    ensures Settled(FixedEvenLevelsPass(s, k), EvenPassAbove(k - 1))
    decreases |s| - k
  {
    if k < |s| {
      EvenPassSettles(s, k + 1);
      var t := FixedEvenLevelsPass(s, k + 1);
      if IndexDepth(k) % 2 == 0 {
        SinkStarts(t, k);
        SinkSettles(t, k, k);
      } else {
        EvenPassSkipsOdd(t, k);
      }
    }
  }

  /** With the corrected child test the build yields a min-max heap for every input. */
  lemma FixedBuiltOrdered(s: seq<int>)
    ensures Ordered(FixedBuilt(s))
  {
    var u := OddLevelsPass(s, |s|);
    OddPassSettles(s, |s|);
    FirstPassHandsOver(u);
    EvenPassSettles(u, 0);
    SettledIsOrdered(FixedBuilt(s));
  }
}
