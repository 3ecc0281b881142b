/**
 * The min-max heap itself: a backing list and a size counter that every public
 * operation updates in place. Every change to the list goes through Swap or
 * through adding or removing its last element, and every method is proved to
 * leave exactly the contents the functions of module HeapSpec describe.
 */
module MinMaxHeap {
  import opened Wrappers
  import opened Topology
  import opened Termination
  import opened HeapSpec

  /** How a call ends: with a value, or by throwing NullPointerException. */
  datatype Outcome<T> = Normal(value: T) | NullPointerException

  class MaxMinHeap {
    var heap: seq<int>
    var heapSize: int

    /** The size counter agrees with the list's length. */
    ghost predicate Valid()
      reads this
      ensures Valid() ==> heapSize >= 0
    {
      |heap| == heapSize
    }

    /** Builds a heap from the given values (a copy of them). */
    constructor (intArray: seq<int>)
      ensures Valid()
      ensures heap == Built(intArray) && heapSize == |intArray|
    {
      heap := intArray;
      heapSize := |intArray|;
      new;
      BuildHeap();
    }

    /** The copy constructor. */
    constructor Copy(other: MaxMinHeap)
      requires other.Valid()
      ensures Valid()
      ensures heap == other.heap && heapSize == other.heapSize
    {
      heap := other.heap;
      heapSize := other.heapSize;
    }

    /** Repairs every odd-level position in ascending order, then every even-level one in descending order. */
    method BuildHeap()
      requires Valid()
      modifies this
      ensures Valid()
      ensures heap == Built(old(heap))
    {
      ghost var input := heap;
      for node := 0 to heapSize
        invariant Valid() && heapSize == |input|
        invariant heap == OddLevelsPass(input, node)
      {
        if IndexDepth(node) % 2 == 1 {
          var _ := Heapify(node, Build);
        }
      }
      ghost var firstPass := heap;
      for node := heapSize downto 0
        invariant Valid() && heapSize == |input|
        invariant heap == EvenLevelsPass(firstPass, node)
      {
        if IndexDepth(node) % 2 == 0 {
          var _ := Heapify(node, Build);
        }
      }
    }

    /**
     * The repair routine. It may be started one past the last position (by
     * heapDelete); there the value is missing, and every branch that compares
     * it throws, which `threw` reports.
     */
    method Heapify(current: int, mode: Mode) returns (threw: bool)
      requires Valid() && 0 <= current <= heapSize
      modifies this
      ensures Valid() && heapSize == old(heapSize)
      ensures threw <==> UnboxesNull(old(heapSize), current, mode)
      ensures current < old(heapSize) ==> heap == Repair(old(heap), current, mode)
      ensures current == old(heapSize) ==> heap == old(heap)
      decreases Measure(heap)
    {
      var next;
      if IndexDepth(current) % 2 == 0 {
        next, threw := MaxLevelNext(current, mode);
      } else {
        next, threw := MinLevelNext(current, mode);
      }
      if threw || next == current {
        return;
      }
      RepairTargetImproves(heap, current, mode);
      if current < next {
        SwapLowersMeasure(heap, current, next);
      } else {
        SwapLowersMeasure(heap, next, current);
      }
      Swap(current, next);
      threw := Heapify(next, mode);
    }

    /**
     * The branches of the repair routine for an even-level (max) position: the
     * position to exchange `current` with, or `current` itself to stop, or
     * `threw` when the comparison unboxes the missing value one past the end.
     */
    method MaxLevelNext(current: int, mode: Mode) returns (next: int, threw: bool)
      requires Valid() && 0 <= current <= heapSize && IndexDepth(current) % 2 == 0
      ensures threw <==> UnboxesNull(heapSize, current, mode)
      ensures !threw && current < heapSize ==> next == MaxLevelTarget(heap, current, mode)
      ensures !threw && current == heapSize ==> next == current
    {
      var down := MaxDownNext(current);
      var grandparent := Parent(Parent(current));
      var currentVal := Get(current);
      var parent := Get(Parent(current));
      next, threw := current, false;
      // In each comparison with a possibly missing `currentVal`, a missing value throws.
      if down != current {
        next := down;
      } else if !HasChild(heapSize, current) && parent.Some? && (currentVal.None? || currentVal.value < parent.value) {
        if currentVal.None? {
          return current, true;
        }
        next := Parent(current);
      } else if mode != Build && grandparent != -1 && (currentVal.None? || currentVal.value > heap[grandparent]) {
        if currentVal.None? {
          return current, true;
        }
        next := grandparent;
      }
    }

    /**
     * The first two branches on an even level: a larger examined grandson,
     * else a larger son. Past the end neither test passes.
     */
    method MaxDownNext(current: int) returns (down: int)
      requires Valid() && 0 <= current <= heapSize
      ensures current < heapSize ==> down == MaxDownTarget(heap, current)
      ensures current == heapSize ==> down == current
    {
      var maxChild := ChildInd(heap, current, Largest);
      var maxGrandchild := GrandchildInd(current, Largest);
      down := current;
      if HasGrandchild(heapSize, current) && maxGrandchild != current {
        down := maxGrandchild;
      } else if HasChild(heapSize, current) && heap[current] < heap[maxChild] {
        down := maxChild;
      }
    }

    /** The same for an odd-level (min) position. */
    method MinLevelNext(current: int, mode: Mode) returns (next: int, threw: bool)
      requires Valid() && 0 <= current <= heapSize && IndexDepth(current) % 2 == 1
      ensures threw <==> UnboxesNull(heapSize, current, mode)
      ensures !threw && current < heapSize ==> next == MinLevelTarget(heap, current, mode)
      ensures !threw && current == heapSize ==> next == current
    {
      var down := MinDownNext(current);
      var grandparent := Parent(Parent(current));
      var currentVal := Get(current);
      var parent := Get(Parent(current));
      DepthOfAncestors(current);
      next, threw := current, false;
      if grandparent > -1 && (currentVal.None? || currentVal.value < heap[grandparent]) {
        if currentVal.None? {
          return current, true;
        }
        next := grandparent;
      } else if mode != Build {
        if down != current {
          next := down;
        } else if !HasGrandchild(heapSize, current) && !HasChild(heapSize, current) && parent.Some?
          && (currentVal.None? || currentVal.value > parent.value)
        {
          if currentVal.None? {
            return current, true;
          }
          next := Parent(current);
        }
      }
    }

    /**
     * The downward branches on an odd level: a smaller examined grandson, else
     * a smaller son. Past the end neither test passes.
     */
    method MinDownNext(current: int) returns (down: int)
      requires Valid() && 0 <= current <= heapSize
      ensures current < heapSize ==> down == MinDownTarget(heap, current)
      ensures current == heapSize ==> down == current
    {
      var minChild := ChildInd(heap, current, Smallest);
      var minGrandchild := GrandchildInd(current, Smallest);
      down := current;
      if HasGrandchild(heapSize, current) && heap[current] > heap[minGrandchild] {
        down := minGrandchild;
      } else if HasChild(heapSize, current) && heap[current] > heap[minChild] {
        down := minChild;
      }
    }

    /** Removes and returns the value at the root, or returns null on an empty heap. */
    method ExtractMax() returns (max: Option<int>)
      requires Valid()
      modifies this
      ensures Valid()
      ensures old(heapSize) == 0 ==> max == None && heap == old(heap)
      ensures old(heapSize) > 0 ==> max == Some(old(heap)[0]) && heap == AfterExtractMax(old(heap))
      ensures heapSize == if old(heapSize) == 0 then 0 else old(heapSize) - 1
    {
      if heapSize == 0 {
        return None;
      }
      max := Get(0);
      if heapSize > 1 {
        Swap(0, heapSize - 1);
      }
      heap := heap[..heapSize - 1];
      heapSize := heapSize - 1;
      if heapSize > 1 {
        var _ := Heapify(0, Extract);
      }
    }

    /**
     * Removes and returns the smallest of the root and its sons, or returns null
     * on an empty heap.
     */
    method ExtractMin() returns (min: Option<int>)
      requires Valid()
      modifies this
      ensures Valid()
      ensures old(heapSize) == 0 ==> min == None && heap == old(heap)
      ensures old(heapSize) > 0 ==>
        min == Some(old(heap)[ChildInd(old(heap), 0, Smallest)]) && heap == AfterExtractMin(old(heap))
      ensures heapSize == if old(heapSize) == 0 then 0 else old(heapSize) - 1
    {
      if heapSize == 0 {
        return None;
      }
      var heapMinInd := ChildInd(heap, 0, Smallest);
      min := Get(heapMinInd);
      if heapSize > 2 {
        Swap(heapMinInd, heapSize - 1);
      }
      heap := heap[..heapSize - 1];
      heapSize := heapSize - 1;
      if heapSize > 3 {
        var _ := Heapify(heapMinInd, Extract);
      }
    }

    /**
     * Removes the value at `index` and returns it, or returns null for an index
     * outside the heap. Deleting the last position of a heap of two or more
     * values throws NullPointerException after the list has shrunk.
     */
    method HeapDelete(index: int) returns (r: Outcome<Option<int>>)
      requires Valid()
      modifies this
      ensures Valid()
      ensures !(0 <= index < old(heapSize)) ==>
        r == Normal(None) && heap == old(heap) && heapSize == old(heapSize)
      ensures 0 <= index < old(heapSize) ==>
        heap == AfterDelete(old(heap), index) && heapSize == old(heapSize) - 1 &&
        r == if index == old(heapSize) - 1 && index > 0 then NullPointerException
             else Normal(Some(old(heap)[index]))
    {
      if index < 0 || index >= heapSize {
        return Normal(None);
      }
      var indexVal := Get(index);
      var last := Get(heapSize - 1);
      heap := heap[index := last.value];
      heap := heap[..heapSize - 1];
      heapSize := heapSize - 1;
      assert heap == LastMovedInto(old(heap), index);
      var threw := Heapify(index, Delete);
      if threw {
        return NullPointerException;
      }
      return Normal(indexVal);
    }

    /** Adds `key` to the heap. */
    method HeapInsert(key: int)
      requires Valid()
      modifies this
      ensures Valid()
      ensures heap == AfterInsert(old(heap), key) && heapSize == old(heapSize) + 1
    {
      if heapSize == 0 {
        heapSize := 1;
        heap := [key] + heap;
        return;
      }
      heap := heap + [key];
      heapSize := heapSize + 1;
      var _ := Heapify(heapSize - 1, Insert);
    }

    /**
     * The values of the heap, drained by extractMax from a copy and each put in
     * front of the earlier ones; the heap itself is untouched.
     */
    method HeapSort() returns (sorted: seq<int>)
      requires Valid()
      ensures sorted == Drain(heap)
    {
      var tempHeap := new MaxMinHeap.Copy(this);
      ghost var all := Drain(heap);
      var n := heapSize;
      sorted := [];
      for i := 0 to n
        invariant fresh(tempHeap) && tempHeap.Valid() && tempHeap.heapSize == n - i
        invariant all == Drain(tempHeap.heap) + sorted
      {
        ghost var rest := tempHeap.heap;
        DrainStep(rest, sorted);
        var tempMax := tempHeap.ExtractMax();
        sorted := [tempMax.value] + sorted;
      }
    }

    /** The value at `index`, or null outside the heap. */
    function Get(index: int): (r: Option<int>)
      reads this
      requires Valid()
      ensures r.Some? <==> 0 <= index < |heap|
      ensures r.Some? ==> r.value == heap[index]
    {
      if index < 0 || index >= heapSize then None else Some(heap[index])
    }

    function IsEmpty(): (r: bool)
      reads this
      requires Valid()
      ensures r <==> heap == []
    {
      heapSize == 0
    }

    /** Exchanges two positions of the list; nothing happens when they are equal. */
    method Swap(ind1: int, ind2: int)
      requires Valid() && 0 <= ind1 < heapSize && 0 <= ind2 < heapSize
      modifies this
      ensures Valid() && heapSize == old(heapSize)
      ensures heap == Swapped(old(heap), ind1, ind2)
    {
      if ind1 == ind2 {
        return;
      }
      var temp := heap[ind1];
      heap := heap[ind1 := heap[ind2]];
      heap := heap[ind2 := temp];
    }

    /**
     * The scan of the grandson slots of `current`, as a loop over the four
     * slots followed by the comparison with the right son.
     */
    method GrandchildInd(current: int, pick: Pick) returns (r: int)
      requires Valid() && 0 <= current
      ensures r == GrandchildIndex(heap, current, pick)
    {
      var next := current + 1;  // the source shifts the index by one to avoid the root's 0
      var grandchildren := [next * 4, next * 4 + 1, next * 4 + 2, next * 4 + 3];
      var max, min := next - 1, next - 1;
      for i := 0 to |grandchildren|
        invariant (max, min) == GrandchildScan(heap, current, i)
      {
        ghost var seen := (max, min);
        var grandchild := grandchildren[i] - 1;
        assert grandchild == 4 * (current + 1) + i - 1;
        if grandchild < heapSize && RightSon(next - 1) < heapSize {
          if heap[grandchild] > heap[max] {
            max := grandchild;
          }
          if heap[grandchild] < heap[min] {
            min := grandchild;
          }
        }
        assert (max, min) == ScanSlot(heap, current, i, seen);
      }
      ghost var scanned := (max, min);
      if grandchildren[2] - 1 >= heapSize && RightSon(next - 1) < heapSize {
        if heap[RightSon(next - 1)] > heap[max] {
          max := RightSon(next - 1);
        } else if heap[RightSon(next - 1)] < heap[min] {
          min := RightSon(next - 1);
        }
      }
      assert (max, min) == RightSonAdjust(heap, current, scanned);
      if pick == Smallest {
        return min;
      }
      return max;
    }
  }
}
