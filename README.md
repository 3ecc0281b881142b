# MaxMinHeap in Dafny

A model of the min-max heap class `heap.MaxMinHeap`. The heap is an almost
complete binary tree stored in a list: position 0 is the root and the sons of
position i are 2i+1 and 2i+2. Values on even levels (max levels) are meant to be
at least every value below them. Values on odd levels (min levels) are meant to
be at most every value below them. The class builds such a heap from a list of
integers and maintains it under extractMax, extractMin, heapDelete and
heapInsert. heapSort drains a copy with extractMax.

The project has seven modules:

- `Wrappers` (wrappers.dfy): `Option`, which stands for a Java `Integer` that may be null.
- `Topology` (topology.dfy): indices, the level of an index, parents and sons, ancestors.
- `Termination` (termination.dfy): the exchange of two positions, and a measure that every exchange made by the repair routine lowers. That measure is why `heapify` terminates.
- `HeapSpec` (heapspec.dfy): every operation as a function of the heap's contents (a `seq<int>`), and lemmas about these functions. The lemmas show that each operation only rearranges the values, apart from the one it removes or adds. They also show that each selection routine picks the best candidate it examines, and that every exchange made by the repair routine moves the value the level favours upwards.
- `MinMaxHeap` (maxminheap.dfy): the class `MaxMinHeap`. It has the fields `heap` (the `ArrayList`, as a `seq<int>`) and `heapSize`, and its methods update them in place. Each method is proved to leave exactly the state that the matching `HeapSpec` function describes.
- `Ordering` (ordering.dfy): the min-max order. It is stated locally (parent and grandparent) and globally (every ancestor), and the two are proved equal. The largest value of an ordered heap is at the root. Its smallest value is the one `childInd(0, 0)` picks, which is the value extractMin reports. On the inputs [0, 2, 1] and [9, 5, 9, 1, 9, 9, 9], the constructor as written builds a heap that is not ordered (see "## Findings").
- `CorrectedBuild` (correctedbuild.dfy): the build with the child test `leftSon(current) < size` that the comment on `hasChild` describes. It is proved to yield a min-max heap for every input, and to be a permutation of its input.

The source's behaviour is kept where it differs from the textbook algorithm:

- `hasChild` compares the left son's index with the size by `<=`.
- `grandchildInd` compares the right son only when the third grandson slot is empty. It never compares the left son.
- `extractMin` on two values reports `childInd(0, 0)` but always removes the last position.
- `heapDelete` of the last position of a heap with two or more values throws `NullPointerException` after the list has shrunk. This happens because `heapify` unboxes the missing value one past the end. The model returns `Outcome.NullPointerException` with the shrunk state. `Heapify` reports the throw through its `threw` result, and `UnboxesNull` says exactly when it happens.

## Model

| member | source | states |
|---|---|---|
| Topology.IndexDepth | src/heap/MaxMinHeap.java:339-341 | the level of an index is a natural number not above the index |
| Topology.DepthBounds | src/heap/MaxMinHeap.java:339-341 | the level d of index i satisfies 2^d <= i+1 < 2^(d+1), i.e. it is floor(log2(i+1)) |
| Topology.DepthUnique | src/heap/MaxMinHeap.java:339-341 | those bounds determine the level: any d meeting them is the level |
| Topology.Parent | src/heap/MaxMinHeap.java:349-354 | the parent is -1 exactly for index 0 (and below); otherwise the index is the left or right son of its parent |
| Topology.LeftSon | src/heap/MaxMinHeap.java:362-364 | the left son of a position lies after it and has an odd index |
| Topology.RightSon | src/heap/MaxMinHeap.java:372-374 | the right son directly follows the left son and has an even index |
| Topology.ParentOfSons | src/heap/MaxMinHeap.java:349-374 | the parent of both sons of i is i, and the sons are 2i+1 and 2i+2 |
| Topology.DepthOfParent | src/heap/MaxMinHeap.java:339-354 | a son lies exactly one level below its parent |
| Topology.DepthOfAncestors | src/heap/MaxMinHeap.java:339-354 | the parent and grandparent lie one and two levels up |
| Topology.DepthOfSons | src/heap/MaxMinHeap.java:339-374 | both sons lie one level below |
| Topology.ParentLevelFlips | src/heap/MaxMinHeap.java:339-354 | a parent is on a level of the other kind (max vs min) |
| Topology.GrandparentLevelSame | src/heap/MaxMinHeap.java:339-354 | a grandparent is on a level of the same kind, and lies above the parent |
| Topology.RootIsAncestor | src/heap/MaxMinHeap.java:349-354 | following parents from any non-root index reaches the root |
| Topology.SonOfRootIsAncestor | src/heap/MaxMinHeap.java:349-354 | every index from 3 on descends from index 1 or index 2 |
| Termination.Swapped | src/heap/MaxMinHeap.java:324-330 | the two positions trade values, every other position keeps its value, and the length is unchanged |
| Termination.SwappedPermutes | src/heap/MaxMinHeap.java:324-330 | an exchange keeps the multiset of values |
| Termination.ParentExchangeImproves | src/heap/MaxMinHeap.java:100-104 | exchanging with a parent whose level favours the position's value is an improving exchange |
| Termination.GrandparentExchangeImproves | src/heap/MaxMinHeap.java:105-110 | exchanging with a grandparent whose level favours the position's value is an improving exchange |
| Termination.SwapLowersMeasure | src/heap/MaxMinHeap.java:77-137 | every improving exchange strictly lowers the natural-number measure, so heapify's recursion ends |
| HeapSpec.HasChild | src/heap/MaxMinHeap.java:383-385 | true whenever the left son exists, and true only if the left son is at most one past the end |
| HeapSpec.HasGrandchild | src/heap/MaxMinHeap.java:426-430 | true whenever the leftmost grandson exists, and true only if it is at most one past the end |
| HeapSpec.ChildInd | src/heap/MaxMinHeap.java:394-417 | the result is the position itself or one of its existing sons |
| HeapSpec.ChildIndIsBest | src/heap/MaxMinHeap.java:394-417 | childInd moves off the position only to a son strictly better than it, and no existing son beats the chosen one |
| HeapSpec.ExaminedIsBelow | src/heap/MaxMinHeap.java:442-469 | every position grandchildInd examines is a son or grandson below the position |
| HeapSpec.ScanSlot | src/heap/MaxMinHeap.java:450-458 | one loop step keeps the largest and smallest positions inside the heap |
| HeapSpec.ScanSlotExtremes | src/heap/MaxMinHeap.java:452-457 | one loop step replaces max (min) only by the visited slot with a strictly larger (smaller) value, and the result bounds that slot |
| HeapSpec.GrandchildScan | src/heap/MaxMinHeap.java:447-458 | after any number of loop steps both positions lie inside the heap |
| HeapSpec.GrandchildScanMoves | src/heap/MaxMinHeap.java:447-458 | the loop moves max (min) off the position only to a visited grandson slot holding a strictly larger (smaller) value |
| HeapSpec.GrandchildScanCovers | src/heap/MaxMinHeap.java:447-458 | after the loop the max and min positions bound every visited grandson slot |
| HeapSpec.RightSonAdjust | src/heap/MaxMinHeap.java:459-464 | the right-son step changes at most one of the two positions, only when the third grandson slot is empty, and only to the right son holding a strictly larger (for max) or smaller (for min) value |
| HeapSpec.GrandchildPair | src/heap/MaxMinHeap.java:447-464 | without a right son the pair stays at the position; otherwise both positions lie inside the heap |
| HeapSpec.GrandchildPairMoves | src/heap/MaxMinHeap.java:447-464 | the scan plus the right-son comparison moves off the position only to an examined position with a strictly better value |
| HeapSpec.GrandchildPairCovers | src/heap/MaxMinHeap.java:447-464 | the scan plus the right-son comparison bound every examined position |
| HeapSpec.GrandchildIndex | src/heap/MaxMinHeap.java:442-469 | the result is the position itself or an examined position below it |
| HeapSpec.GrandchildIndexIsBest | src/heap/MaxMinHeap.java:442-469 | grandchildInd moves only to a son or grandson strictly better than the position, and no examined position beats the chosen one |
| HeapSpec.MaxDownTarget | src/heap/MaxMinHeap.java:92-99 | the downward exchange on a max level stays at the position or goes to a later position in the heap |
| HeapSpec.MinDownTarget | src/heap/MaxMinHeap.java:121-128 | the downward exchange on a min level stays at the position or goes to a later position in the heap |
| HeapSpec.MaxLevelTarget | src/heap/MaxMinHeap.java:90-113 | the max-level branches pick a position inside the heap |
| HeapSpec.MaxLevelChoice | src/heap/MaxMinHeap.java:92-111 | the max-level branch order (down, parent, then grandparent outside a build) picks a position inside the heap |
| HeapSpec.MinLevelTarget | src/heap/MaxMinHeap.java:114-136 | the min-level branches pick a position inside the heap |
| HeapSpec.MinLevelChoice | src/heap/MaxMinHeap.java:116-135 | the min-level branch order (grandparent, then down and parent outside a build) picks a position inside the heap |
| HeapSpec.RepairTarget | src/heap/MaxMinHeap.java:79-136 | the exchange partner chosen by the level of the position lies inside the heap |
| HeapSpec.MaxDownTargetImproves | src/heap/MaxMinHeap.java:92-99 | a downward exchange on a max level brings up a strictly larger son or grandson |
| HeapSpec.MinDownTargetImproves | src/heap/MaxMinHeap.java:121-128 | a downward exchange on a min level brings up a strictly smaller son or grandson |
| HeapSpec.MaxLevelChoiceImproves | src/heap/MaxMinHeap.java:92-111 | every exchange chosen on a max level (down, to the parent, to the grandparent) is improving |
| HeapSpec.MinLevelChoiceImproves | src/heap/MaxMinHeap.java:116-135 | every exchange chosen on a min level (to the grandparent, down, to the parent) is improving |
| HeapSpec.RepairTargetImproves | src/heap/MaxMinHeap.java:77-137 | every exchange heapify makes is between a position and its son or grandson and gives the upper one the value its level favours |
| HeapSpec.Repair | src/heap/MaxMinHeap.java:77-137 | heapify from an existing position keeps the length (and terminates, by the measure) |
| HeapSpec.RepairPermutes | src/heap/MaxMinHeap.java:77-137 | heapify only rearranges the values |
| HeapSpec.UnboxesNull | src/heap/MaxMinHeap.java:100-129 | heapify unboxes a missing value only for a position one past the end or further that has a parent |
| HeapSpec.DeleteUnboxesNullOnLast | src/heap/MaxMinHeap.java:187-197 | the repair after heapDelete unboxes a missing value exactly when the last position of a heap of two or more values was deleted |
| HeapSpec.OddLevelsPass | src/heap/MaxMinHeap.java:55-59 | the first build loop keeps the length |
| HeapSpec.OddLevelsPassStep | src/heap/MaxMinHeap.java:55-59 | one iteration of the first build loop keeps the values |
| HeapSpec.OddLevelsPassPermutes | src/heap/MaxMinHeap.java:55-59 | the first build loop only rearranges the values |
| HeapSpec.EvenLevelsPass | src/heap/MaxMinHeap.java:62-66 | the second build loop keeps the length |
| HeapSpec.EvenLevelsPassStep | src/heap/MaxMinHeap.java:62-66 | one iteration of the second build loop keeps the values |
| HeapSpec.EvenLevelsPassPermutes | src/heap/MaxMinHeap.java:62-66 | the second build loop only rearranges the values |
| HeapSpec.Built | src/heap/MaxMinHeap.java:52-68 | buildHeap keeps the length |
| HeapSpec.BuiltPermutes | src/heap/MaxMinHeap.java:30-34 | the constructed heap holds exactly the input's values |
| HeapSpec.AfterExtractMax | src/heap/MaxMinHeap.java:144-156 | extractMax shortens the heap by one |
| HeapSpec.ExtractMaxRemovesRoot | src/heap/MaxMinHeap.java:144-156 | extractMax removes exactly one copy of the root's value, which it returns |
| HeapSpec.MinRemovedAt | src/heap/MaxMinHeap.java:163-173 | the position extractMin empties lies inside the heap |
| HeapSpec.AfterExtractMin | src/heap/MaxMinHeap.java:163-179 | extractMin shortens the heap by one |
| HeapSpec.ExtractMinRemovesOne | src/heap/MaxMinHeap.java:163-179 | extractMin removes exactly one copy of the value at the emptied position |
| HeapSpec.ExtractMinRemovesReported | src/heap/MaxMinHeap.java:163-179 | the removed value equals the reported one unless the heap has two values and the root is below its son |
| HeapSpec.LastMovedInto | src/heap/MaxMinHeap.java:190-194 | overwriting with the last value and dropping the last position shortens by one |
| HeapSpec.OverwriteLast | src/heap/MaxMinHeap.java:190-194 | that step removes exactly one copy of the overwritten value |
| HeapSpec.AfterDelete | src/heap/MaxMinHeap.java:187-197 | heapDelete of an existing position shortens the heap by one |
| HeapSpec.DeleteRemovesOne | src/heap/MaxMinHeap.java:187-197 | heapDelete removes exactly one copy of the value at the index |
| HeapSpec.AfterInsert | src/heap/MaxMinHeap.java:204-213 | heapInsert lengthens the heap by one |
| HeapSpec.InsertAddsOne | src/heap/MaxMinHeap.java:204-213 | heapInsert adds exactly one copy of the key |
| HeapSpec.Drain | src/heap/MaxMinHeap.java:220-228 | heapSort returns as many values as the heap holds |
| HeapSpec.DrainStep | src/heap/MaxMinHeap.java:223-226 | one loop iteration moves the extracted maximum from the rest of the drain to the front of the result |
| HeapSpec.DrainPermutes | src/heap/MaxMinHeap.java:220-228 | heapSort returns a permutation of the heap's values |
| HeapSpec.RestBelowRoot | src/heap/MaxMinHeap.java:220-228 | when the root is the largest value, every value drained after it is at most the root |
| HeapSpec.DrainAscending | src/heap/MaxMinHeap.java:220-228 | when every extractMax along the drain finds the largest remaining value at the root, heapSort's result is ascending |
| MinMaxHeap.MaxMinHeap.constructor | src/heap/MaxMinHeap.java:30-34 | the new heap is the built heap of a copy of the input, with the size equal to its length |
| MinMaxHeap.MaxMinHeap.Valid | src/heap/MaxMinHeap.java:16-17 | the size counter equals the list's length, so it is never negative |
| MinMaxHeap.MaxMinHeap.Copy | src/heap/MaxMinHeap.java:41-44 | the copy has the same contents and size |
| MinMaxHeap.MaxMinHeap.BuildHeap | src/heap/MaxMinHeap.java:52-68 | the two loops leave exactly the built heap of the old contents |
| MinMaxHeap.MaxMinHeap.Heapify | src/heap/MaxMinHeap.java:77-137 | heapify keeps the size, leaves the repaired contents, and throws exactly when it unboxes the missing value one past the end |
| MinMaxHeap.MaxMinHeap.MaxLevelNext | src/heap/MaxMinHeap.java:86-111 | the max-level branches pick the exchange partner of the specification, or throw exactly on the null unboxing |
| MinMaxHeap.MaxMinHeap.MaxDownNext | src/heap/MaxMinHeap.java:92-99 | the grandson and son tests on a max level pick the specified downward exchange, and nothing past the end |
| MinMaxHeap.MaxMinHeap.MinLevelNext | src/heap/MaxMinHeap.java:114-136 | the min-level branches pick the exchange partner of the specification, or throw exactly on the null unboxing |
| MinMaxHeap.MaxMinHeap.MinDownNext | src/heap/MaxMinHeap.java:121-128 | the grandson and son tests on a min level pick the specified downward exchange, and nothing past the end |
| MinMaxHeap.MaxMinHeap.ExtractMax | src/heap/MaxMinHeap.java:144-156 | null and no change on an empty heap; otherwise returns the root and leaves the extracted contents, one shorter |
| MinMaxHeap.MaxMinHeap.ExtractMin | src/heap/MaxMinHeap.java:163-179 | null and no change on an empty heap; otherwise returns the value childInd(0, 0) picks and leaves the extracted contents, one shorter |
| MinMaxHeap.MaxMinHeap.HeapDelete | src/heap/MaxMinHeap.java:187-197 | null and no change for an index outside the heap; otherwise the deleted contents, one shorter, and the old value, or NullPointerException for the last index of a heap of two or more |
| MinMaxHeap.MaxMinHeap.HeapInsert | src/heap/MaxMinHeap.java:204-213 | the contents after inserting the key, one longer |
| MinMaxHeap.MaxMinHeap.HeapSort | src/heap/MaxMinHeap.java:220-228 | the result is the drain of the heap by repeated extractMax on a copy, and the heap itself is not changed |
| MinMaxHeap.MaxMinHeap.Get | src/heap/MaxMinHeap.java:238-242 | a value exactly for indices inside the heap, and then the value at that index |
| MinMaxHeap.MaxMinHeap.IsEmpty | src/heap/MaxMinHeap.java:249-251 | true exactly when the heap holds no values |
| MinMaxHeap.MaxMinHeap.Swap | src/heap/MaxMinHeap.java:324-330 | the list becomes the exchanged list and the size is unchanged |
| MinMaxHeap.MaxMinHeap.GrandchildInd | src/heap/MaxMinHeap.java:442-469 | the loop over the four grandson slots plus the right-son comparison returns the specified grandchild index |
| Ordering.OrderedAlongPath | src/heap/MaxMinHeap.java:5-10 | in a heap ordered against parents and grandparents, every position respects the level of every ancestor |
| Ordering.OrderedIsMinMax | src/heap/MaxMinHeap.java:5-10 | the local order (parent and grandparent) holds exactly when the order against all ancestors holds |
| Ordering.MaxAtRoot | src/heap/MaxMinHeap.java:139-147 | in an ordered heap the root, which extractMax returns, holds the largest value |
| Ordering.MinNearRoot | src/heap/MaxMinHeap.java:158-167 | in an ordered heap the value childInd(0, 0) picks, which extractMin returns, is the smallest |
| Ordering.RootSonStaysInBuild | src/heap/MaxMinHeap.java:114-120 | in a build, heapify on a son of the root changes nothing |
| Ordering.RootExchangeOnThree | src/heap/MaxMinHeap.java:92-95 | on [0, 2, 1] the root's exchange partner is the right son, because the grandson branch fires and falls back to it |
| Ordering.OddPassOnThree | src/heap/MaxMinHeap.java:55-59 | on three values the first build loop changes nothing |
| Ordering.RootRepairOnThree | src/heap/MaxMinHeap.java:90-99 | heapify at the root of [0, 2, 1] in a build yields [1, 2, 0] |
| Ordering.EvenPassOnThree | src/heap/MaxMinHeap.java:62-66 | the second build loop turns [0, 2, 1] into [1, 2, 0]: positions 2 and 1 are left alone and the root exchanges with its right son |
| Ordering.BuildLeavesDisorder | src/heap/MaxMinHeap.java:48-68 | buildHeap turns [0, 2, 1] into [1, 2, 0], which is not a min-max heap (the root is below its left son) |
| Ordering.OddPassKeeps | src/heap/MaxMinHeap.java:55-59 | the first build loop leaves a heap unchanged when heapify leaves it unchanged at every odd-level position the loop visits |
| Ordering.EvenPassKeeps | src/heap/MaxMinHeap.java:62-66 | the second build loop leaves a heap unchanged when heapify leaves it unchanged at every even-level position the loop visits |
| Ordering.RootStaysOnSeven | src/heap/MaxMinHeap.java:90-113 | in a build, heapify at the root of [9, 5, 9, 1, 9, 9, 9] changes nothing: no son and no examined grandson is larger |
| Ordering.PositionThreeStays | src/heap/MaxMinHeap.java:96-104 | in a build, heapify at position 3 of [9, 5, 9, 1, 9, 9, 9] changes nothing: `hasChild(3)` holds at size 7, so the 1 is not exchanged with the 5 at its parent |
| Ordering.LeafStaysOnSeven | src/heap/MaxMinHeap.java:90-113 | in a build, heapify at positions 4 to 6 of [9, 5, 9, 1, 9, 9, 9] changes nothing: they have no son and no larger parent |
| Ordering.SevenStaysInBuild | src/heap/MaxMinHeap.java:77-137 | in a build, heapify at any position of [9, 5, 9, 1, 9, 9, 9] changes nothing |
| Ordering.SevenUnordered | src/heap/MaxMinHeap.java:5-10 | [9, 5, 9, 1, 9, 9, 9] is not a min-max heap: the 1 at position 3 is below the 5 at its parent |
| Ordering.BuildLeavesLeafBelowParent | src/heap/MaxMinHeap.java:48-68 | buildHeap leaves [9, 5, 9, 1, 9, 9, 9] unchanged, which is not a min-max heap |
| CorrectedBuild.FixedMaxDownTarget | src/heap/MaxMinHeap.java:92-99 | with the corrected tests the downward exchange on an even level stays at the position or goes to a later position in the heap |
| CorrectedBuild.FixedHasChild | src/heap/MaxMinHeap.java:383-385 | the variant of `hasChild` with `leftSon(current) < size`: it agrees with the test as written except where the left son is exactly one past the end |
| CorrectedBuild.FixedHasGrandchild | src/heap/MaxMinHeap.java:426-430 | the variant of `hasGrandchild` built on `leftSon(current) < size`: it agrees with the test as written except where the left son or the leftmost grandson is exactly one past the end |
| CorrectedBuild.FixedBuildTarget | src/heap/MaxMinHeap.java:86-136 | the build-mode exchange partner with the corrected tests lies inside the heap |
| CorrectedBuild.FixedBuildTargetImproves | src/heap/MaxMinHeap.java:86-136 | every exchange of the corrected build-mode repair is improving, so the corrected repair terminates by the same measure |
| CorrectedBuild.FixedRepair | src/heap/MaxMinHeap.java:77-137 | the variant of build-mode `heapify` with `leftSon(current) < size` keeps the length, and terminates by the same measure |
| CorrectedBuild.FixedEvenLevelsPass | src/heap/MaxMinHeap.java:62-66 | the variant of the second build loop that repairs with `leftSon(current) < size` keeps the length |
| CorrectedBuild.FixedBuilt | src/heap/MaxMinHeap.java:52-68 | the variant of `buildHeap` whose second loop uses `leftSon(current) < size` keeps the length |
| CorrectedBuild.FixedTargetAgreesAwayFromEdge | src/heap/MaxMinHeap.java:383-385 | the corrected exchange partner equals the one chosen as written wherever neither the left son nor the leftmost grandson falls exactly one past the end |
| CorrectedBuild.FixedRepairPermutes | src/heap/MaxMinHeap.java:77-137 | the corrected repair only rearranges the values |
| CorrectedBuild.FixedEvenLevelsPassPermutes | src/heap/MaxMinHeap.java:62-66 | the corrected second build loop only rearranges the values |
| CorrectedBuild.FixedBuiltPermutes | src/heap/MaxMinHeap.java:52-68 | the corrected build holds exactly the input's values |
| CorrectedBuild.OddLevelTargets | src/heap/MaxMinHeap.java:114-120 | in a build, on an odd level, both repairs exchange only with a larger grandparent |
| CorrectedBuild.RepairOddIsSiftUp | src/heap/MaxMinHeap.java:114-120 | in a build, heapify on an odd level only moves the value up the odd levels while it is below its grandparent |
| CorrectedBuild.FixedRepairOddIsSiftUp | src/heap/MaxMinHeap.java:114-120 | the corrected repair on an odd level moves values the same way |
| CorrectedBuild.FixedBuiltOrdered | src/heap/MaxMinHeap.java:5-10 | with the corrected child test the build yields a min-max heap for every input |

## Left out

- `toString` and `showHeapAsArray` are display routines and are not modelled.
- `indexDepth` computes `(int)(Math.log(ind + 1) / Math.log(2))` in floating point. The model uses the exact floor of log2(ind + 1), proved by `Topology.DepthBounds`. Rounding in the floating-point quotient is not modelled.
- Java `int` indices and `Integer` values are unbounded integers here. 32-bit overflow (of `(current + 1) * 4 + 3` or of sizes near 2^31) is not modelled.
- The `String mode` of `heapify` becomes the datatype `Mode`. Only whether it equals "build" matters. The `int mode` of `childInd` and `grandchildInd` (1 for maximum, 0 for minimum) becomes the datatype `Pick`.
- `heapify` is one recursive method in the model as in the source. Its branch selection is split into the helper methods `MaxLevelNext`, `MaxDownNext`, `MinLevelNext` and `MinDownNext`. The source computes `childInd` and `grandchildInd` for both picks before branching. The model computes only the pick of the current level, which reads the same values and changes nothing.
- The `NullPointerException` is modelled as a value (`Outcome`, and the `threw` result of `Heapify`), not as a control transfer.
- The `ArrayList` is a `seq<int>`. The copy constructor's independence from the original holds automatically for sequence values, so aliasing is not modelled.
- MinMaxHeap.MaxMinHeap.BuildHeap: its contract gives the exact resulting contents, and `HeapSpec.BuiltPermutes` gives the permutation property, but neither states the min-max order the class comment promises. As written the order does not always hold (`Ordering.BuildLeavesDisorder`). The order is proved for the corrected build (`CorrectedBuild.FixedBuiltOrdered`). The class keeps the build as written.
- MinMaxHeap.MaxMinHeap.HeapInsert, MinMaxHeap.MaxMinHeap.HeapDelete, MinMaxHeap.MaxMinHeap.ExtractMax, MinMaxHeap.MaxMinHeap.ExtractMin: their contracts give the exact resulting contents and which value is removed or added, but do not state that the min-max order is preserved.
- MinMaxHeap.MaxMinHeap.HeapSort: its contract gives the result as the drain of the heap, the sequence of extracted maxima. `HeapSpec.DrainPermutes` proves the drain a permutation of the heap. `HeapSpec.DrainAscending` proves the result ascending when every extractMax along the way finds the largest remaining value at the root (`HeapSpec.RootIsMaxThroughout`). That this holds for every ordered heap is not proved, because the model does not prove that extractMax preserves the min-max order.

## Findings

| source | as written | input that shows it | evidently intended | confidence | as-written member | corrected member |
|---|---|---|---|---|---|---|
| src/heap/MaxMinHeap.java:383-385 | `hasChild` tests `leftSon(current) <= _heapSize`, so a position whose left son is one past the end counts as having a son. In the build's second loop, `hasGrandchild(0)` is then true on three values, the grandson scan visits nothing, and the root exchanges with its right son. The same test also keeps a leaf whose left son would be exactly at the size from the exchange with a larger parent (line 100). | [0, 2, 1]: buildHeap yields [1, 2, 0], whose root is below its left son. [9, 5, 9, 1, 9, 9, 9] (`Ordering.BuildLeavesLeafBelowParent`): buildHeap leaves it unchanged, with the 1 at position 3 below the 5 at its parent | `leftSon(current) < _heapSize`, as the comment on `hasChild` says; the build then yields a min-max heap for every input | not executed | Ordering.BuildLeavesDisorder | CorrectedBuild.FixedBuiltOrdered |
