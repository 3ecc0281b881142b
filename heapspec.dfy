/**
 * The heap's operations as functions of its contents. A sequence `s` stands for
 * the backing list, and its length for the size counter, which the class keeps
 * equal to it. The methods of class MaxMinHeap are proved to leave exactly the
 * state these functions describe.
 */
module HeapSpec {
  import opened Topology
  import opened Termination

  /** The context a repair runs in; only whether it is a build changes anything. */
  datatype Mode = Build | Insert | Extract | Delete

  /** Whether a selection looks for the largest (source: mode 1) or smallest (mode 0) value. */
  datatype Pick = Largest | Smallest

  /** `x` strictly wins over `y` under `pick`. */
  predicate Better(pick: Pick, x: int, y: int)
  {
    if pick == Largest then x > y else x < y
  }

  /**
   * The source's child test: it compares the left son's index with the size by
   * `<=`, so a node whose left son would sit exactly at the size also passes.
   */
  function HasChild(n: int, current: int): (r: bool)
    ensures current >= 0 && LeftSon(current) < n ==> r
    ensures r ==> LeftSon(current) <= n
  {
    LeftSon(current) <= n
  }

  function HasGrandchild(n: int, current: int): (r: bool)
    ensures current >= 0 && LeftSon(LeftSon(current)) < n ==> r
    ensures r ==> LeftSon(LeftSon(current)) <= n
  {
    if !HasChild(n, current) then false else HasChild(n, LeftSon(current))
  }

  /**
   * The position, among `current` and its existing sons, of the value that
   * wins under `pick`; ties keep the earlier candidate.
   */
  function ChildInd(s: seq<int>, current: int, pick: Pick): (r: int)
    requires current >= 0
    ensures r == current || (current < r < |s| && Parent(r) == current)
  {
    ParentOfSons(current);
    var left := LeftSon(current);
    var right := RightSon(current);
    var (max1, min1) :=
      if left < |s| then
        (if s[left] > s[current] then left else current,
         if s[left] < s[current] then left else current)
      else (current, current);
    var (max2, min2) :=
      if right < |s| then
        (if s[right] > s[max1] then right else max1,
         if s[right] < s[min1] then right else min1)
      else (max1, min1);
    if pick == Largest then max2 else min2
  }

  /**
   * ChildInd moves off `current` only to a son that beats it, and no existing
   * son beats the position it picks.
   */
  lemma ChildIndIsBest(s: seq<int>, current: int, pick: Pick)
    requires current >= 0
    ensures var r := ChildInd(s, current, pick);
      && (r != current ==> Better(pick, s[r], s[current]))
      && (forall k :: 0 < k < |s| && Parent(k) == current ==> r < |s| && !Better(pick, s[k], s[r]))
  {
    ParentOfSons(current);
  }

  /**
   * The positions the grandchild scan compares with `current`: the grandsons
   * 4c+3 .. 4c+6 that exist, and the right son when the third grandson slot is
   * empty; nothing at all unless the right son exists. The left son is never
   * compared.
   */
  predicate Examined(n: int, c: int, k: int)
  {
    c >= 0 && RightSon(c) < n && k < n &&
    ((4 * c + 3 <= k <= 4 * c + 6) || (k == RightSon(c) && 4 * c + 5 >= n))
  }

  lemma ExaminedIsBelow(n: int, c: int, k: int)
    requires Examined(n, c, k)
    ensures c < k && (Parent(k) == c || Parent(Parent(k)) == c)
  {
    ParentOfSons(c);
    if k != RightSon(c) {
      ParentOfSons(LeftSon(c));
      ParentOfSons(RightSon(c));
    }
  }

  /**
   * One step of the scan: slot `i` (grandson 4c+3+i) replaces the largest or
   * smallest position seen so far when its value is strictly larger or smaller.
   * A slot counts only when it exists and so does the right son.
   */
  function ScanSlot(s: seq<int>, c: int, i: int, seen: (int, int)): (r: (int, int))
    requires 0 <= c && 0 <= i
    requires RightSon(c) < |s| ==> 0 <= seen.0 < |s| && 0 <= seen.1 < |s|
    ensures RightSon(c) < |s| ==> 0 <= r.0 < |s| && 0 <= r.1 < |s|
  {
    var (max, min) := seen;
    var grandchild := 4 * (c + 1) + i - 1;
    if grandchild < |s| && RightSon(c) < |s| then
      (if s[grandchild] > s[max] then grandchild else max,
       if s[grandchild] < s[min] then grandchild else min)
    else seen
  }

  /** The positions of the largest and smallest values after the first `i` slots, starting from `c` itself. */
  function GrandchildScan(s: seq<int>, c: int, i: int): (r: (int, int))
    requires 0 <= c && 0 <= i
    ensures RightSon(c) < |s| ==> 0 <= r.0 < |s| && 0 <= r.1 < |s|
    decreases i
  {
    if i == 0 then (c, c) else ScanSlot(s, c, i - 1, GrandchildScan(s, c, i - 1))
  }

  lemma ScanSlotExtremes(s: seq<int>, c: int, i: int, seen: (int, int))
    requires 0 <= c && 0 <= i
    requires RightSon(c) < |s| ==> 0 <= seen.0 < |s| && 0 <= seen.1 < |s|
    ensures var r := ScanSlot(s, c, i, seen);
      var grandchild := 4 * (c + 1) + i - 1;
      && (RightSon(c) < |s| ==> s[r.0] >= s[seen.0] && s[r.1] <= s[seen.1])
      && (r.0 == seen.0 || (r.0 == grandchild < |s| && RightSon(c) < |s| && s[r.0] > s[seen.0]))
      && (r.1 == seen.1 || (r.1 == grandchild < |s| && RightSon(c) < |s| && s[r.1] < s[seen.1]))
      && (grandchild < |s| && RightSon(c) < |s| ==> s[r.1] <= s[grandchild] <= s[r.0])
  {
  }

  /** The scan moves off `c` only to a visited slot holding a strictly better value. */
  lemma {:induction false} GrandchildScanMoves(s: seq<int>, c: int, i: int)
    requires 0 <= c && 0 <= i
    ensures var r := GrandchildScan(s, c, i);
      && (RightSon(c) < |s| ==> s[r.0] >= s[c] && s[r.1] <= s[c])
      && (r.0 != c ==> RightSon(c) < |s| && 4 * c + 3 <= r.0 < 4 * c + 3 + i && r.0 < |s| && s[r.0] > s[c])
      && (r.1 != c ==> RightSon(c) < |s| && 4 * c + 3 <= r.1 < 4 * c + 3 + i && r.1 < |s| && s[r.1] < s[c])
    decreases i
  {
    if i > 0 {
      GrandchildScanMoves(s, c, i - 1);
      ScanSlotExtremes(s, c, i - 1, GrandchildScan(s, c, i - 1));
    }
  }

  /** The scan holds the largest and smallest values among the slots it has visited. */
  lemma {:induction false} GrandchildScanCovers(s: seq<int>, c: int, i: int)
    requires 0 <= c && 0 <= i
    ensures var r := GrandchildScan(s, c, i);
      forall k :: 4 * c + 3 <= k < 4 * c + 3 + i && k < |s| && RightSon(c) < |s| ==> s[r.1] <= s[k] <= s[r.0]
    decreases i
  {
    if i > 0 {
      GrandchildScanCovers(s, c, i - 1);
      ScanSlotExtremes(s, c, i - 1, GrandchildScan(s, c, i - 1));
    }
  }

  /**
   * The positions of the largest and smallest values among `current` and the
   * positions it examines: the grandson slots, then the right son when the
   * third slot is empty.
   */
  function GrandchildPair(s: seq<int>, current: int): (r: (int, int))
    requires current >= 0
    ensures RightSon(current) < |s| ==> 0 <= r.0 < |s| && 0 <= r.1 < |s|
    ensures RightSon(current) >= |s| ==> r == (current, current)
  {
    RightSonAdjust(s, current, GrandchildScan(s, current, 4))
  }

  /** The comparison with the right son that follows the scan when the third grandson slot is empty. */
  function RightSonAdjust(s: seq<int>, current: int, scanned: (int, int)): (r: (int, int))
    requires current >= 0
    requires RightSon(current) < |s| ==> 0 <= scanned.0 < |s| && 0 <= scanned.1 < |s|
    ensures r.0 == scanned.0 || r.1 == scanned.1
    ensures r != scanned ==> RightSon(current) < |s| && 4 * current + 5 >= |s|
    ensures r.0 == scanned.0 || (r.0 == RightSon(current) && s[r.0] > s[scanned.0])
    ensures r.1 == scanned.1 || (r.1 == RightSon(current) && s[r.1] < s[scanned.1])
  {
    var (max, min) := scanned;
    var right := RightSon(current);
    if 4 * (current + 1) + 2 - 1 >= |s| && right < |s| then
      if s[right] > s[max] then (right, min)
      else if s[right] < s[min] then (max, right)
      else (max, min)
    else (max, min)
  }

  /** The pair moves off `current` only to an examined position holding a strictly better value. */
  lemma GrandchildPairMoves(s: seq<int>, current: int)
    requires current >= 0
    ensures var (max, min) := GrandchildPair(s, current);
      && (max == current || (Examined(|s|, current, max) && s[max] > s[current]))
      && (min == current || (Examined(|s|, current, min) && s[min] < s[current]))
  {
    GrandchildScanMoves(s, current, 4);
  }

  /** The pair holds the largest and the smallest value among the examined positions. */
  lemma GrandchildPairCovers(s: seq<int>, current: int)
    requires current >= 0
    ensures var (max, min) := GrandchildPair(s, current);
      forall k :: Examined(|s|, current, k) ==> max < |s| && min < |s| && s[min] <= s[k] <= s[max]
  {
    GrandchildScanMoves(s, current, 4);
    GrandchildScanCovers(s, current, 4);
  }

  /**
   * The position, among `current` and the positions it examines, of the value
   * that wins under `pick`; ties keep the earlier candidate.
   */
  function GrandchildIndex(s: seq<int>, current: int, pick: Pick): (r: int)
    requires current >= 0
    ensures r == current || (current < r < |s| && Examined(|s|, current, r))
  {
    GrandchildPairMoves(s, current);
    var (max, min) := GrandchildPair(s, current);
    if pick == Smallest then min else max
  }

  /**
   * GrandchildIndex moves off `current` only to a son or grandson that beats
   * it, and no examined position beats the position it picks.
   */
  lemma GrandchildIndexIsBest(s: seq<int>, current: int, pick: Pick)
    requires current >= 0
    ensures var r := GrandchildIndex(s, current, pick);
      && (r != current ==> (Parent(r) == current || Parent(Parent(r)) == current) && Better(pick, s[r], s[current]))
      && (forall k :: Examined(|s|, current, k) ==> r < |s| && !Better(pick, s[k], s[r]))
  {
    GrandchildPairMoves(s, current);
    GrandchildPairCovers(s, current);
    var r := GrandchildIndex(s, current, pick);
    if r != current {
      ExaminedIsBelow(|s|, current, r);
    }
  }

  /**
   * Whether the source's repair, started at position `current` of a heap of
   * size `n`, unboxes a null value: only when `current` is one past the end and
   * not the root, and not in the one case (build mode, level 1) where no
   * comparison with the missing value is reached.
   */
  predicate UnboxesNull(n: int, current: int, mode: Mode): (r: bool)
    requires current >= 0
    ensures r ==> current >= n && Parent(current) >= 0
  {
    current == n && current > 0 && !(mode == Build && IndexDepth(current) == 1)
  }

  /**
   * heapDelete repairs the deleted position of the shrunk heap, and that
   * repair unboxes a missing value exactly when the last position of a heap of
   * two or more values was deleted.
   */
  lemma DeleteUnboxesNullOnLast(n: int, index: int)
    requires 0 <= index < n
    ensures UnboxesNull(n - 1, index, Delete) <==> index == n - 1 && index > 0
  {
  }

  /**
   * The downward exchange on an even (max) level: a larger value among the
   * examined grandsons, else a larger son, else none (`current` itself).
   */
  function MaxDownTarget(s: seq<int>, current: int): (r: int)
    requires 0 <= current < |s|
    ensures r == current || current < r < |s|
  {
    var maxChild := ChildInd(s, current, Largest);
    var maxGrandchild := GrandchildIndex(s, current, Largest);
    if HasGrandchild(|s|, current) && maxGrandchild != current then maxGrandchild
    else if HasChild(|s|, current) && s[current] < s[maxChild] then maxChild
    else current
  }

  /**
   * The downward exchange on an odd (min) level: a smaller value among the
   * examined grandsons, else a smaller son, else none.
   */
  function MinDownTarget(s: seq<int>, current: int): (r: int)
    requires 0 <= current < |s|
    ensures r == current || current < r < |s|
  {
    var minChild := ChildInd(s, current, Smallest);
    var minGrandchild := GrandchildIndex(s, current, Smallest);
    if HasGrandchild(|s|, current) && s[current] > s[minGrandchild] then minGrandchild
    else if HasChild(|s|, current) && s[current] > s[minChild] then minChild
    else current
  }

  /**
   * The position the repair routine, at an existing even-level (max) position
   * `current`, exchanges `current` with, or `current` itself when it stops: the
   * downward exchange if there is one, else (for a node failing the child test)
   * a larger parent, else, outside a build, a smaller grandparent.
   */
  function MaxLevelTarget(s: seq<int>, current: int, mode: Mode): (r: int)
    requires 0 <= current < |s|
    ensures 0 <= r < |s|
  {
    MaxLevelChoice(s, current, mode, MaxDownTarget(s, current))
  }

  /** MaxLevelTarget once the downward exchange `down` is known. */
  function MaxLevelChoice(s: seq<int>, current: int, mode: Mode, down: int): (r: int)
    requires 0 <= current < |s|
    requires down == current || current < down < |s|
    ensures 0 <= r < |s|
  {
    var parent := Parent(current);
    var grandparent := Parent(parent);
    if down != current then down
    else if !HasChild(|s|, current) && parent != -1 && s[current] < s[parent] then parent
    else if mode != Build && grandparent != -1 && s[current] > s[grandparent] then grandparent
    else current
  }

  /**
   * The same for an odd-level (min) position: a larger grandparent, else,
   * outside a build, the downward exchange if there is one, else (for a node
   * failing both the grandchild and the child test) a smaller parent.
   */
  function MinLevelTarget(s: seq<int>, current: int, mode: Mode): (r: int)
    requires 0 <= current < |s|
    ensures 0 <= r < |s|
  {
    MinLevelChoice(s, current, mode, MinDownTarget(s, current))
  }

  /** MinLevelTarget once the downward exchange `down` is known; a build never looks down from an odd level. */
  function MinLevelChoice(s: seq<int>, current: int, mode: Mode, down: int): (r: int)
    requires 0 <= current < |s|
    requires down == current || current < down < |s|
    ensures 0 <= r < |s|
  {
    var parent := Parent(current);
    var grandparent := Parent(parent);
    if grandparent > -1 && s[current] < s[grandparent] then grandparent
    else if mode != Build then
      if down != current then down
      else if !HasGrandchild(|s|, current) && !HasChild(|s|, current) && parent != -1 && s[current] > s[parent] then parent
      else current
    else current
  }

  /** The position the repair routine exchanges `current` with, by the level `current` is on. */
  function RepairTarget(s: seq<int>, current: int, mode: Mode): (r: int)
    requires 0 <= current < |s|
    ensures 0 <= r < |s|
  {
    if IndexDepth(current) % 2 == 0 then MaxLevelTarget(s, current, mode) else MinLevelTarget(s, current, mode)
  }

  /** A downward exchange on an even level brings up a larger son or grandson. */
  lemma MaxDownTargetImproves(s: seq<int>, current: int)
    requires 0 <= current < |s| && IndexDepth(current) % 2 == 0
    ensures var r := MaxDownTarget(s, current); r == current || Improves(s, current, r)
  {
    ChildIndIsBest(s, current, Largest);
    GrandchildIndexIsBest(s, current, Largest);
  }

  /** A downward exchange on an odd level brings up a smaller son or grandson. */
  lemma MinDownTargetImproves(s: seq<int>, current: int)
    requires 0 <= current < |s| && IndexDepth(current) % 2 == 1
    ensures var r := MinDownTarget(s, current); r == current || Improves(s, current, r)
  {
    ChildIndIsBest(s, current, Smallest);
    GrandchildIndexIsBest(s, current, Smallest);
  }

  /** Once the downward exchange improves, every exchange chosen on an even level improves. */
  lemma MaxLevelChoiceImproves(s: seq<int>, current: int, mode: Mode, down: int)
    requires 0 <= current < |s| && IndexDepth(current) % 2 == 0
    requires down == current || Improves(s, current, down)
    ensures var r := MaxLevelChoice(s, current, mode, down);
      && (current < r ==> Improves(s, current, r))
      && (r < current ==> Improves(s, r, current))
  {
    var parent := Parent(current);
    var grandparent := Parent(parent);
    var r := MaxLevelChoice(s, current, mode, down);
    if r < current {
      if r == parent && s[current] < s[parent] {
        ParentExchangeImproves(s, current);
      } else {
        assert r == grandparent && parent > 0 && s[current] > s[grandparent];
        GrandparentExchangeImproves(s, current);
      }
    }
  }

  /** Once the downward exchange improves, every exchange chosen on an odd level improves. */
  lemma MinLevelChoiceImproves(s: seq<int>, current: int, mode: Mode, down: int)
    requires 0 <= current < |s| && IndexDepth(current) % 2 == 1
    requires down == current || Improves(s, current, down)
    ensures var r := MinLevelChoice(s, current, mode, down);
      && (current < r ==> Improves(s, current, r))
      && (r < current ==> Improves(s, r, current))
  {
    var parent := Parent(current);
    var grandparent := Parent(parent);
    var r := MinLevelChoice(s, current, mode, down);
    if r < current {
      if r == grandparent && parent > 0 && s[current] < s[grandparent] {
        GrandparentExchangeImproves(s, current);
      } else {
        assert r == parent && s[current] > s[parent];
        ParentExchangeImproves(s, current);
      }
    }
  }

  /**
   * Every exchange the repair routine makes is an improving one: between a
   * position and its son or grandson, giving the upper position the value its
   * level favours.
   */
  lemma RepairTargetImproves(s: seq<int>, current: int, mode: Mode)
    requires 0 <= current < |s|
    ensures var r := RepairTarget(s, current, mode);
      && (current < r ==> Improves(s, current, r))
      && (r < current ==> Improves(s, r, current))
  {
    if IndexDepth(current) % 2 == 0 {
      MaxDownTargetImproves(s, current);
      MaxLevelChoiceImproves(s, current, mode, MaxDownTarget(s, current));
    } else {
      MinDownTargetImproves(s, current);
      MinLevelChoiceImproves(s, current, mode, MinDownTarget(s, current));
    }
  }

  /**
   * The repair routine started at an existing position: it exchanges with the
   * target RepairTarget picks and continues from there, until the target is the
   * position itself.
   */
  function Repair(s: seq<int>, current: int, mode: Mode): (r: seq<int>)
    requires 0 <= current < |s|
    ensures |r| == |s|
    decreases Measure(s)
  {
    var target := RepairTarget(s, current, mode);
    RepairTargetImproves(s, current, mode);
    if target == current then s
    else
      if current < target then SwapLowersMeasure(s, current, target); Repair(Swapped(s, current, target), target, mode)
      else SwapLowersMeasure(s, target, current); Repair(Swapped(s, current, target), target, mode)
  }

  /** The first build pass over positions 0 .. k-1, ascending: repair every odd-level position. */
  function OddLevelsPass(s: seq<int>, k: int): (r: seq<int>)
    requires 0 <= k <= |s|
    ensures |r| == |s|
    decreases k
  {
    if k == 0 then s
    else
      var t := OddLevelsPass(s, k - 1);
      if IndexDepth(k - 1) % 2 == 1 then Repair(t, k - 1, Build) else t
  }

  /** The second build pass over positions |s|-1 down to k: repair every even-level position. */
  function EvenLevelsPass(s: seq<int>, k: int): (r: seq<int>)
    requires 0 <= k <= |s|
    ensures |r| == |s|
    decreases |s| - k
  {
    if k == |s| then s
    else
      var t := EvenLevelsPass(s, k + 1);
      if IndexDepth(k) % 2 == 0 then Repair(t, k, Build) else t
  }

  /** The heap the constructor builds from its input. */
  function Built(s: seq<int>): (r: seq<int>)
    ensures |r| == |s|
  {
    EvenLevelsPass(OddLevelsPass(s, |s|), 0)
  }

  lemma DropLast(t: seq<int>)
    requires |t| > 0
    ensures multiset(t[..|t| - 1]) == multiset(t) - multiset{t[|t| - 1]}
  {
    assert t == t[..|t| - 1] + [t[|t| - 1]];
  }

  /**
   * The contents after extractMax: the root's value goes, the last value takes
   * its place and, when at least two values remain, is repaired from the root.
   */
  function AfterExtractMax(s: seq<int>): (r: seq<int>)
    requires |s| > 0
    ensures |r| == |s| - 1
  {
    var n := |s|;
    var t := if n > 1 then Swapped(s, 0, n - 1) else s;
    var u := t[..n - 1];
    if n - 1 > 1 then Repair(u, 0, Extract) else u
  }

  /**
   * The position extractMin empties: the smaller of the root's sons (or the
   * root) when there are more than two values, else simply the last position.
   */
  function MinRemovedAt(s: seq<int>): (i: int)
    requires |s| > 0
    ensures 0 <= i < |s|
  {
    if |s| > 2 then ChildInd(s, 0, Smallest) else |s| - 1
  }

  /**
   * The contents after extractMin: with more than two values the chosen minimum
   * is exchanged with the last value, the last position goes and, when more
   * than three values remain, the moved value is repaired; otherwise the last
   * position just goes.
   */
  function AfterExtractMin(s: seq<int>): (r: seq<int>)
    requires |s| > 0
    ensures |r| == |s| - 1
  {
    var n := |s|;
    var heapMinInd := ChildInd(s, 0, Smallest);
    var t := if n > 2 then Swapped(s, heapMinInd, n - 1) else s;
    var u := t[..n - 1];
    if n - 1 > 3 then Repair(u, heapMinInd, Extract) else u
  }

  /**
   * The value extractMin reports is the one it removes, except on two values
   * with the root below its son: then it reports the root and removes the son.
   */
  lemma ExtractMinRemovesReported(s: seq<int>)
    requires |s| > 0
    ensures s[MinRemovedAt(s)] == s[ChildInd(s, 0, Smallest)] <==> !(|s| == 2 && s[0] < s[1])
  {
    ParentOfSons(0);
  }

  lemma OverwriteLast(s: seq<int>, index: int)
    requires 0 <= index < |s|
    ensures multiset(s[index := s[|s| - 1]][..|s| - 1]) == multiset(s) - multiset{s[index]}
  {
    var n := |s|;
    var front := s[..n - 1];
    assert s == front + [s[n - 1]];
    if index < n - 1 {
      assert s[index := s[n - 1]][..n - 1] == front[index := s[n - 1]];
      assert front[index] == s[index];
      calc {
        multiset(front[index := s[n - 1]]);
        multiset(front) - multiset{s[index]} + multiset{s[n - 1]};
        multiset(s) - multiset{s[index]};
      }
    }
  }

  /** The last value overwrites position `index` and the last position goes: `s[index]` is removed. */
  function LastMovedInto(s: seq<int>, index: int): (r: seq<int>)
    requires 0 <= index < |s|
    ensures |r| == |s| - 1
  {
    s[index := s[|s| - 1]][..|s| - 1]
  }

  /**
   * The contents after heapDelete at an existing position: the last value
   * overwrites it, the last position goes and, unless the deleted position was
   * the last, the moved value is repaired in place.
   */
  function AfterDelete(s: seq<int>, index: int): (r: seq<int>)
    requires 0 <= index < |s|
    ensures |r| == |s| - 1
  {
    var u := LastMovedInto(s, index);
    if index < |s| - 1 then Repair(u, index, Delete) else u
  }

  /** The contents after heapInsert: the key goes last and is repaired from there. */
  function AfterInsert(s: seq<int>, key: int): (r: seq<int>)
    ensures |r| == |s| + 1
  {
    if |s| == 0 then [key] else Repair(s + [key], |s|, Insert)
  }

  /**
   * What heapSort returns: the values extractMax yields one after another on a
   * copy, each put in front of those yielded before it.
   */
  function Drain(s: seq<int>): (r: seq<int>)
    ensures |r| == |s|
    decreases |s|
  {
    if |s| == 0 then [] else Drain(AfterExtractMax(s)) + [s[0]]
  }

  /** One extraction moves the root from the front of the remaining drain to the front of what is drained. */
  lemma DrainStep(s: seq<int>, drained: seq<int>)
    requires |s| > 0
    ensures Drain(s) + drained == Drain(AfterExtractMax(s)) + ([s[0]] + drained)
  {
    AppendAssociates(Drain(AfterExtractMax(s)), [s[0]], drained);
  }

  lemma AppendAssociates(a: seq<int>, b: seq<int>, c: seq<int>)
    ensures (a + b) + c == a + (b + c)
  {
  }

  // Every operation only rearranges the contents, apart from the one value it
  // removes or adds.

  lemma {:induction false} RepairPermutes(s: seq<int>, current: int, mode: Mode)
    requires 0 <= current < |s|
    ensures multiset(Repair(s, current, mode)) == multiset(s)
    decreases Measure(s)
  {
    var target := RepairTarget(s, current, mode);
    RepairTargetImproves(s, current, mode);
    if target != current {
      if current < target {
        SwapLowersMeasure(s, current, target);
      } else {
        SwapLowersMeasure(s, target, current);
      }
      SwappedPermutes(s, current, target);
      RepairPermutes(Swapped(s, current, target), target, mode);
    }
  }

  /** One step of the first build pass keeps the contents. */
  lemma OddLevelsPassStep(s: seq<int>, k: int)
    requires 0 < k <= |s|
    ensures multiset(OddLevelsPass(s, k)) == multiset(OddLevelsPass(s, k - 1))
  {
    var t := OddLevelsPass(s, k - 1);
    if IndexDepth(k - 1) % 2 == 1 {
      RepairPermutes(t, k - 1, Build);
    }
  }

  lemma {:induction false} OddLevelsPassPermutes(s: seq<int>, k: int)
    requires 0 <= k <= |s|
    ensures multiset(OddLevelsPass(s, k)) == multiset(s)
    decreases k
  {
    if k > 0 {
      OddLevelsPassPermutes(s, k - 1);
      OddLevelsPassStep(s, k);
    }
  }

  /** One step of the second build pass keeps the contents. */
  lemma EvenLevelsPassStep(s: seq<int>, k: int)
    requires 0 <= k < |s|
    ensures multiset(EvenLevelsPass(s, k)) == multiset(EvenLevelsPass(s, k + 1))
  {
    var t := EvenLevelsPass(s, k + 1);
    if IndexDepth(k) % 2 == 0 {
      RepairPermutes(t, k, Build);
    }
  }

  lemma {:induction false} EvenLevelsPassPermutes(s: seq<int>, k: int)
    requires 0 <= k <= |s|
    ensures multiset(EvenLevelsPass(s, k)) == multiset(s)
    decreases |s| - k
  {
    if k < |s| {
      EvenLevelsPassPermutes(s, k + 1);
      EvenLevelsPassStep(s, k);
    }
  }

  /** The constructor's heap is a permutation of its input. */
  lemma BuiltPermutes(s: seq<int>)
    ensures multiset(Built(s)) == multiset(s)
  {
    OddLevelsPassPermutes(s, |s|);
    EvenLevelsPassPermutes(OddLevelsPass(s, |s|), 0);
  }

  /** extractMax removes exactly one copy of the root's value. */
  lemma ExtractMaxRemovesRoot(s: seq<int>)
    requires |s| > 0
    ensures multiset(AfterExtractMax(s)) == multiset(s) - multiset{s[0]}
  {
    var n := |s|;
    var t := if n > 1 then Swapped(s, 0, n - 1) else s;
    if n > 1 {
      SwappedPermutes(s, 0, n - 1);
    }
    DropLast(t);
    if n - 1 > 1 {
      RepairPermutes(t[..n - 1], 0, Extract);
    }
  }

  /** extractMin removes exactly one copy of the value at MinRemovedAt. */
  lemma ExtractMinRemovesOne(s: seq<int>)
    requires |s| > 0
    ensures multiset(AfterExtractMin(s)) == multiset(s) - multiset{s[MinRemovedAt(s)]}
  {
    var n := |s|;
    var heapMinInd := ChildInd(s, 0, Smallest);
    var t := if n > 2 then Swapped(s, heapMinInd, n - 1) else s;
    if n > 2 {
      SwappedPermutes(s, heapMinInd, n - 1);
    }
    DropLast(t);
    if n - 1 > 3 {
      RepairPermutes(t[..n - 1], heapMinInd, Extract);
    }
  }

  /** heapDelete removes exactly one copy of the value at `index`. */
  lemma DeleteRemovesOne(s: seq<int>, index: int)
    requires 0 <= index < |s|
    ensures multiset(AfterDelete(s, index)) == multiset(s) - multiset{s[index]}
  {
    OverwriteLast(s, index);
    if index < |s| - 1 {
      RepairPermutes(LastMovedInto(s, index), index, Delete);
    }
  }

  /** heapInsert adds exactly one copy of the key. */
  lemma InsertAddsOne(s: seq<int>, key: int)
    ensures multiset(AfterInsert(s, key)) == multiset(s) + multiset{key}
  {
    if |s| > 0 {
      RepairPermutes(s + [key], |s|, Insert);
    }
  }

  /** heapSort returns a permutation of the heap's values. */
  lemma {:induction false} DrainPermutes(s: seq<int>)
    ensures multiset(Drain(s)) == multiset(s)
    decreases |s|
  {
    if |s| > 0 {
      DrainPermutes(AfterExtractMax(s));
      ExtractMaxRemovesRoot(s);
    }
  }

  /** Every extraction along the drain finds the largest remaining value at the root. */
  predicate RootIsMaxThroughout(s: seq<int>)
    decreases |s|
  {
    |s| > 0 ==> (forall k :: 0 <= k < |s| ==> s[k] <= s[0]) && RootIsMaxThroughout(AfterExtractMax(s))
  }

  /** When every extractMax yields the maximum, heapSort's result is ascending. */
  lemma {:induction false} DrainAscending(s: seq<int>)
    requires RootIsMaxThroughout(s)
    ensures forall i, j :: 0 <= i < j < |Drain(s)| ==> Drain(s)[i] <= Drain(s)[j]
    decreases |s|
  {
    if |s| > 0 {
      var u := AfterExtractMax(s);
      DrainAscending(u);
      RestBelowRoot(s);
      assert Drain(s) == Drain(u) + [s[0]];
    }
  }

  /** What is drained after the root holds values of the heap, so none above a maximal root. */
  lemma RestBelowRoot(s: seq<int>)
    requires |s| > 0 && forall k :: 0 <= k < |s| ==> s[k] <= s[0]
    ensures forall i :: 0 <= i < |Drain(AfterExtractMax(s))| ==> Drain(AfterExtractMax(s))[i] <= s[0]
  {
    var u := AfterExtractMax(s);
    DrainPermutes(u);
    ExtractMaxRemovesRoot(s);
    forall i | 0 <= i < |Drain(u)|
      ensures Drain(u)[i] <= s[0]
    {
      assert Drain(u)[i] in multiset(Drain(u));
      assert Drain(u)[i] in s;
    }
  }
}
