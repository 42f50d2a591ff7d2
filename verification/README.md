# Sorting strategies of astonSoritng, modelled in Dafny

The repository sorts integer arrays with two interchangeable strategies and a
parity-restricted sort built on top of them:

- `TimSortStrategy` is the TimSort of the Java library over `Integer[]`. It finds
  natural runs, reverses strictly descending ones, and extends short runs to
  `minRunLength(n)` by binary insertion sort. It pushes each run on a stack of
  pending runs and merges runs at the top until the stack's length invariant
  holds again. At the end it merges everything into one run. Merging goes
  through a temporary buffer (`mergeLo` when the left run is no longer than the
  right, `mergeHi` otherwise). It alternates a one-at-a-time mode and a
  galloping mode, which uses `gallopLeft`/`gallopRight` searches; `minGallop`
  adapts between the two.
- `LibrarySortStrategy` is a gapped insertion ("library") sort. Each element
  goes into the gap in front of its `Arrays.binarySearch` position in a sorted
  library. When that gap is already filled, the library and its filled gaps are
  interleaved into a second library buffer and the element is tried again.
  Finally the shelf (library plus gaps) is copied back into the array.
- `CustomSort.sortEvenOdd` extracts the even (or odd) elements in position order,
  sorts them with a strategy and writes them back into the same positions.

The model follows the source's own imperative form. The TimSort state is a
class `TimSort.TimSortStrategy` whose fields are the source's fields. The
sorts and merges are methods working in place on `array<int>`, each proved
against a specification function or predicate on sequences. The properties
of those functions are proved as lemmas:

- `MergeSpec`: the stable merge, built from the front and from the back;
- `MergeState` and `MergeCursors`: the state of an in-place merge;
- `RunSpec` and `InsertionSpec`: runs and binary insertion;
- `TimSortStack`: the run stack;
- `TimSortMinRun`: the minimum run length;
- `LibrarySortSpec`: the shelf and the insertion loop's invariant;
- `CustomSort.Picked` and `CustomSort.Scatter`.

Java ints are unbounded here. Where 32 bits matter, the model writes out the
wrap-around (`TimSortGallop.Wrap32`) in the gallop doubling step and in
`ensureCapacity`'s power-of-two computation. TimSort's array lengths are
bounded by `INT_MAX` (`TimSort.TimSortStrategy.Sort`, `SortRange`, and
`CustomSort.CanSort` for the TimSort strategy); the library sort's are not.

In two places the code does not do what a reader might expect, and the
model follows the code:

- A reader might expect an empty input to sort to an empty array, with no
  error, under both strategies. `LibrarySortStrategy.sort` reads `array[0]`
  unconditionally (src/sorting/LibrarySortStrategy.java:20), so
  `LibrarySort.Sort` requires a non-empty array.
  - For the same reason `CustomSort.SortEvenOdd` with the library strategy
    requires at least one element of the requested parity: `strategy.sort` is
    called on the extracted array even when it is empty
    (src/sorting/CustomSort.java:18-21).
  - TimSort handles the empty array.
- Reading the rule "strip low bits while n >= 32, OR the shifted-out ones into
  r, return n + r" as producing runs of 32 to 64 elements gives
  `minRunLength(64) == 32` and `minRunLength(65) == 33`. The code's loop
  (src/sorting/TimSortStrategy.java:294-302) gives 16 and 17.
  `TimSortMinRun.MinRunExamples` proves the code's values
  for 31, 32, 63, 64 and 65.

## Model

| member | source | states |
|---|---|---|
| TimSort.TimSortStrategy.constructor | src/sorting/TimSortStrategy.java:57-73 | the buffer is the caller's work slice when that holds tlen = min(len/2, 256) elements, else a fresh array of tlen elements; minGallop starts at MIN_GALLOP and the run stack empty |
| TimSort.TimSortStrategy.Sort | src/sorting/TimSortStrategy.java:95-101 | the public sort, with a work array as long as the input, leaves the array sorted and a permutation of its input |
| TimSort.TimSortStrategy.SortRange | src/sorting/TimSortStrategy.java:117-163 | a[lo..hi) ends up sorted and a permutation of what it was, nothing outside it changes, and ranges of fewer than two elements are left exactly as they were |
| TimSort.TimSortStrategy.SortRuns | src/sorting/TimSortStrategy.java:136-162 | the run loop tiles [lo, hi) with sorted runs on a balanced stack, and after the final collapse the stack holds one run and the range is sorted and permuted |
| TimSort.TimSortStrategy.NextRun | src/sorting/TimSortStrategy.java:140-146 | the pushed run length is the natural run, or min(minRun, remaining) when the natural run is shorter; that prefix is sorted and the range is only permuted |
| TimSort.TimSortStrategy.AddRun | src/sorting/TimSortStrategy.java:139-156 | one pass of the do-loop keeps the stack a tiling of sorted runs satisfying the length invariant and advances lo by the forced run length |
| TimSort.TimSortStrategy.PushNextRun | src/sorting/TimSortStrategy.java:140-150 | the found and extended run is pushed as entry (lo, n) on top of the old stack, which still tiles and holds sorted runs |
| TimSort.ExtendedRunSorted | src/sorting/TimSortStrategy.java:143-146 | making the run ascending and then binary-sorting up to lo + force leaves that prefix sorted and [lo, hi) permuted |
| TimSort.TimSortStrategy.PushRun | src/sorting/TimSortStrategy.java:310-314 | pushRun appends (runBase, runLen) to the stack, increments stackSize and changes nothing else |
| TimSort.TimSortStrategy.MergeCollapse | src/sorting/TimSortStrategy.java:316-336 | with the length invariant holding below the pushed run, after mergeCollapse it holds for the whole stack (runLen[i-2] > runLen[i-1] + runLen[i], runLen[i-1] > runLen[i]), the runs still tile and are sorted, and the range is permuted |
| TimSort.TimSortStrategy.MergeForceCollapse | src/sorting/TimSortStrategy.java:338-349 | merges until stackSize == 1, after which the tiled range is sorted and a permutation of what it was |
| TimSort.TimSortStrategy.MergeAtOnStack | src/sorting/TimSortStrategy.java:358-408 | mergeAt on a tiling stack of sorted runs keeps it tiling and sorted, preserves the length invariant below the top, and only permutes the range |
| TimSort.TimSortStrategy.MergeAt | src/sorting/TimSortStrategy.java:358-408 | runLen[i] becomes len1 + len2, the third-from-top merge shifts the top run down, stackSize drops by one, and the two runs' range holds their stable merge |
| TimSort.TimSortStrategy.MergeRuns | src/sorting/TimSortStrategy.java:382-407 | after skipping the prefix of run 1 at most run 2's head and the suffix of run 2 at least run 1's last element, mergeLo or mergeHi on the rest leaves the whole merge in place; the len2 == 0 return is unreachable once len1 > 0 |
| TimSort.TimSortStrategy.MergeLo | src/sorting/TimSortStrategy.java:576-586 | with run 1 copied to tmp, the range of the two runs ends holding their stable merge (run 1 wins ties), the stack is untouched and minGallop stays at least 1 |
| TimSort.TimSortStrategy.LoMerge | src/sorting/TimSortStrategy.java:589-680 | the first move, both early exits, the alternating modes and the two endings produce the stable merge; the len1 == 0 "contract violated" branch is unreachable and the returned minGallop is at least 1 |
| TimSort.TimSortStrategy.LoOneAtATime | src/sorting/TimSortStrategy.java:610-626 | each move takes the smaller head, X on ties, keeping the merge state; it exits with len1 == 1 or len2 == 0, or with both runs still long enough |
| TimSort.TimSortStrategy.LoGalloping | src/sorting/TimSortStrategy.java:633-662 | the galloping rounds keep the merge state and shrink what remains, exiting only with len1 == 1, len2 == 0 or both long enough to continue |
| TimSort.TimSortStrategy.LoGallopX | src/sorting/TimSortStrategy.java:636-644 | gallopRight's count of X elements at most Y's head is copied back from tmp; fewer than all of X move |
| TimSort.TimSortStrategy.LoGallopY | src/sorting/TimSortStrategy.java:649-657 | gallopLeft's count of Y elements below X's head move down, keeping the merge state |
| TimSort.TimSortStrategy.LoFinishX | src/sorting/TimSortStrategy.java:676-680 | when Y is used up, copying the rest of X from tmp completes the merge |
| TimSort.TimSortStrategy.LoFinishY | src/sorting/TimSortStrategy.java:669-672 | when one X element is left, moving the rest of Y down and putting that element last completes the merge |
| TimSort.TimSortStrategy.LoMoveY | src/sorting/TimSortStrategy.java:614 | a[dest++] = a[cursor2++] keeps the merge state when Y's head is below X's |
| TimSort.TimSortStrategy.LoMoveX | src/sorting/TimSortStrategy.java:620 | a[dest++] = tmp[cursor1++] keeps the merge state when X's head is at most Y's |
| TimSort.TimSortStrategy.MergeHi | src/sorting/TimSortStrategy.java:695-706 | with run 2 copied to tmp, the two runs' range ends holding their stable merge, built from the back, and minGallop stays at least 1 |
| TimSort.TimSortStrategy.HiMerge | src/sorting/TimSortStrategy.java:709-804 | the first move, the early exits, the modes and the endings give the merge; the len2 == 0 "contract violated" branch is unreachable |
| TimSort.TimSortStrategy.HiOneAtATime | src/sorting/TimSortStrategy.java:732-748 | each move takes the larger last element, Y on ties, exiting with len1 == 0 or len2 == 1 or with both long enough |
| TimSort.TimSortStrategy.HiGalloping | src/sorting/TimSortStrategy.java:755-784 | the galloping rounds from the back keep the merge state and shrink what remains |
| TimSort.TimSortStrategy.HiGallopX | src/sorting/TimSortStrategy.java:758-766 | len1 - gallopRight counts the X elements above Y's last, and they move up |
| TimSort.TimSortStrategy.HiGallopY | src/sorting/TimSortStrategy.java:771-779 | len2 - gallopLeft counts the Y elements at least X's last, copied back from tmp; not all of Y goes |
| TimSort.TimSortStrategy.HiFinishY | src/sorting/TimSortStrategy.java:800-804 | when X is used up, copying the rest of Y from tmp completes the merge |
| TimSort.TimSortStrategy.HiFinishX | src/sorting/TimSortStrategy.java:791-796 | when one Y element is left, moving the rest of X up and putting it first completes the merge |
| TimSort.TimSortStrategy.HiMoveX | src/sorting/TimSortStrategy.java:736 | a[dest--] = a[cursor1--] keeps the back-merge state when X's last is above Y's |
| TimSort.TimSortStrategy.HiMoveY | src/sorting/TimSortStrategy.java:742 | a[dest--] = tmp[cursor2--] keeps the back-merge state when Y's last is at least X's |
| TimSort.TimSortStrategy.EnsureCapacity | src/sorting/TimSortStrategy.java:814-832 | an adequate buffer is kept; otherwise a fresh one of GrownCapacity elements replaces it, and a request of at most a.length/2 is always met |
| TimSort.MaskArithmetic | src/sorting/TimSortStrategy.java:816-823 | the int computation (-1 >>> nlz(m)) + 1, wrapping, is negative exactly when the next power of two overflows and otherwise yields GrownCapacity |
| TimSort.GrownCapacitySuffices | src/sorting/TimSortStrategy.java:816-823 | the grown size holds m whenever m <= n/2 |
| TimSort.LowMaskIsPowerAbove | src/sorting/TimSortStrategy.java:817-818 | the mask plus one is the smallest power of two above m |
| TimSortRuns.BinarySort | src/sorting/TimSortStrategy.java:180-223 | binarySort's result is BinarySorted of the input |
| InsertionSpec.BinarySortedSorts | src/sorting/TimSortStrategy.java:166-223 | with a[lo..start) sorted, BinarySorted sorts a[lo..hi), permutes it and changes nothing outside |
| TimSortRuns.BinaryInsert | src/sorting/TimSortStrategy.java:185-221 | one pivot step moves a[i] to its insertion point, after all equal elements, and extends the sorted prefix by one |
| TimSortRuns.SearchInsertionPoint | src/sorting/TimSortStrategy.java:188-204 | the binary search returns the insertion point: after every element at most the pivot, before every larger one |
| TimSortRuns.ShiftUp | src/sorting/TimSortStrategy.java:213-220 | the switch with its fall-through and the arraycopy default move a[left..left+n) one place up and change nothing else |
| InsertionSpec.InsertSorted | src/sorting/TimSortStrategy.java:206-221 | inserting the pivot at its place keeps the prefix sorted |
| InsertionSpec.InsertPermutes | src/sorting/TimSortStrategy.java:213-221 | the insertion only permutes [lo, i + 1) |
| InsertionSpec.InsertionPassSorts | src/sorting/TimSortStrategy.java:184-222 | inserting the pivots start..hi in turn leaves a[lo..hi) sorted |
| InsertionSpec.InsertionPassPermutes | src/sorting/TimSortStrategy.java:184-222 | and keeps its elements and everything outside |
| InsertionSpec.CountLeSplits | src/sorting/TimSortStrategy.java:188-204 | in a sorted range, the count of elements at most x splits it into those and the larger ones |
| TimSortRuns.CountRunAndMakeAscending | src/sorting/TimSortStrategy.java:243-265 | returns RunEnd - lo and leaves MadeAscending of the input |
| RunSpec.RunEndIsMaximal | src/sorting/TimSortStrategy.java:225-265 | the run is the longest strictly descending stretch when the first two elements descend, and otherwise the longest non-decreasing one |
| RunSpec.MadeAscendingSortsRun | src/sorting/TimSortStrategy.java:243-265 | after countRunAndMakeAscending the run is sorted, [lo, hi) is permuted, and nothing outside the run moves |
| TimSortRuns.ReverseRange | src/sorting/TimSortStrategy.java:274-281 | the array becomes the input with [lo, hi) reversed |
| SortSpec.ReversedRangeTwice | src/sorting/TimSortStrategy.java:274-281 | reversing a range twice gives back the input |
| SortSpec.ReversedRangePermutes | src/sorting/TimSortStrategy.java:274-281 | reversing a range only permutes it |
| SortSpec.ReverseOfDescendingIsSorted | src/sorting/TimSortStrategy.java:252-257 | a strictly descending run reversed is sorted |
| TimSortRuns.ArrayCopy | src/sorting/TimSortStrategy.java:586 | System.arraycopy writes the old source block, even when the ranges overlap, and nothing else |
| TimSortMinRun.MinRunLength | src/sorting/TimSortStrategy.java:294-302 | the loop returns MinRun(n): n below 32, otherwise between 16 and 32 |
| TimSortMinRun.MinRunBounds | src/sorting/TimSortStrategy.java:283-302 | MinRun(n) is n for n < 32 and lies in [16, 32] otherwise |
| TimSortMinRun.MinRunOfPowerOfTwo | src/sorting/TimSortStrategy.java:288 | for a power of two of at least 32, minRunLength is 16 |
| TimSortMinRun.MinRunIsCeilingQuotient | src/sorting/TimSortStrategy.java:289-290 | n / minRunLength(n) is at most, and close to, a power of two: p*(k-1) < n <= p*k |
| TimSortMinRun.ShiftDecomposition | src/sorting/TimSortStrategy.java:296-301 | n is the shifted value times 2^shifts plus the dropped bits, and the result is rounded up exactly when a dropped bit was set |
| TimSortMinRun.MinRunExamples | src/sorting/TimSortStrategy.java:294-302 | minRunLength gives 31, 16, 32, 16, 17 for 31, 32, 63, 64, 65 |
| TimSortGallop.GallopLeft | src/sorting/TimSortStrategy.java:427-486 | returns k in [0, len] with every element before base + k below key and every one from there at least key |
| TimSortGallop.GallopRight | src/sorting/TimSortStrategy.java:500-559 | returns k in [0, len] with every element before base + k at most key and every one from there above key |
| TimSortGallop.GallopBracket | src/sorting/TimSortStrategy.java:431-467 | the exponential phase brackets the boundary: everything below lo goes before key, everything from hi on does not |
| TimSortGallop.GallopUp | src/sorting/TimSortStrategy.java:433-448 | galloping right of the hint, with the int-overflow guard, brackets the boundary |
| TimSortGallop.GallopDown | src/sorting/TimSortStrategy.java:449-466 | galloping left of the hint brackets the boundary |
| TimSortGallop.BinaryNarrow | src/sorting/TimSortStrategy.java:474-485 | the binary phase narrows the bracket to the exact boundary |
| TimSortGallop.DoublingStep | src/sorting/TimSortStrategy.java:439-441 | ofs = (ofs << 1) + 1 is exact while it fits and wraps negative, caught by "ofs <= 0", otherwise |
| TimSortGallop.Wrap32 | src/sorting/TimSortStrategy.java:439-440 | reduces an integer to the 32-bit two's-complement int it is congruent to |
| TimSortStack.PushTiles | src/sorting/TimSortStrategy.java:40-49 | pushing the run [mid, hi) on a stack tiling [lo, mid) gives a stack tiling [lo, hi): runBase[i] + runLen[i] == runBase[i + 1] |
| TimSortStack.CollapsedTiles | src/sorting/TimSortStrategy.java:375-380 | merging entries i and i + 1 keeps the tiling, the merged run starting at runBase[i] with length len1 + len2 |
| TimSortStack.Collapsed | src/sorting/TimSortStrategy.java:375-380 | the collapsed runLen keeps entries below i, holds the sum at i and shifts the rest down |
| TimSortStack.Removed | src/sorting/TimSortStrategy.java:376-380 | the collapsed runBase drops entry i + 1 and shifts the rest down |
| TimSortStack.BalancedAtTop | src/sorting/TimSortStrategy.java:327-333 | when neither merge condition holds and the top run is shorter than the one below, the invariant holds for the whole stack |
| TimSortStack.CollapsedBelowTop | src/sorting/TimSortStrategy.java:375-380 | merging one of the top runs leaves the entries below as they were, so the invariant below the top survives |
| TimSortStack.SingleRunSorted | src/sorting/TimSortStrategy.java:160-162 | with a single run left, the tiled range is sorted |
| TimSortStack.MergeableRuns | src/sorting/TimSortStrategy.java:359-368 | runs i and i + 1 of a tiling stack of sorted runs are adjacent, non-empty, inside the array and sorted, as mergeAt asserts |
| TimSortStack.MergedRunsSorted | src/sorting/TimSortStrategy.java:358-408 | after the merge in place every run of the collapsed stack is sorted and the range keeps its elements |
| TimSortStack.PushedRun | src/sorting/TimSortStrategy.java:140-150 | the extended run pushed on the stack gives a tiling of sorted runs over the old stack's range plus the run |
| MergeSpec.MergePermutes | src/sorting/TimSortStrategy.java:561-681 | the merge holds exactly the elements of both runs |
| MergeSpec.MergeSorted | src/sorting/TimSortStrategy.java:561-681 | merging two sorted runs gives a sorted run |
| MergeSpec.MergeBackIsMerge | src/sorting/TimSortStrategy.java:695-805 | for sorted runs, building the merge from the back (mergeHi) gives the same merge as from the front (mergeLo) |
| MergeSpec.MergeFromTakeX | src/sorting/TimSortStrategy.java:636-641 | a block of X none of which exceeds Y's head comes next in the merge, which is what a gallopRight block copies |
| MergeSpec.MergeFromTakeY | src/sorting/TimSortStrategy.java:649-654 | a block of Y each below X's head comes next in the merge |
| MergeSpec.MergeBackTakeX | src/sorting/TimSortStrategy.java:758-763 | a block of X each above Y's last goes last in the back-built merge |
| MergeSpec.MergeBackTakeY | src/sorting/TimSortStrategy.java:771-776 | a block of Y none below X's last goes last in the back-built merge |
| MergeSpec.MergeAllBefore | src/sorting/TimSortStrategy.java:386-391 | when all of run 1 is at most run 2's head, the merge is the two runs as they lie, so mergeAt may return |
| MergeSpec.MergeTrimmed | src/sorting/TimSortStrategy.java:382-401 | the merge leaves in place the prefix and suffix mergeAt's gallops skip, merging only what lies between |
| MergeSpec.MergeFromEndsWithX | src/sorting/TimSortStrategy.java:732-742 | when X's last element exceeds Y's last, it is the last element of the merge: the move mergeHi makes from X |
| MergeSpec.MergeFromEndsWithY | src/sorting/TimSortStrategy.java:732-748 | when Y's last element is at least X's last, it is the last element of the merge: the move mergeHi makes from Y, which wins ties at the back |
| MergeState.MergedInPlaceFacts | src/sorting/TimSortStrategy.java:561-681 | a merge in place leaves the rest of the array alone, orders the runs' range and only permutes it |
| MergeState.LoStepY | src/sorting/TimSortStrategy.java:614 | mergeLo moving Y's head, below X's head, keeps its state |
| MergeState.LoStepX | src/sorting/TimSortStrategy.java:620 | mergeLo moving X's head, at most Y's head, keeps its state |
| MergeState.LoBlockX | src/sorting/TimSortStrategy.java:638 | copying a block of X from tmp keeps mergeLo's state |
| MergeState.LoBlockY | src/sorting/TimSortStrategy.java:651 | moving a block of Y down keeps mergeLo's state; the overlapping copy reads Y before overwriting it |
| MergeState.LoDone | src/sorting/TimSortStrategy.java:669-680 | once both runs are consumed, mergeLo has the merge in place |
| MergeState.HiStepX | src/sorting/TimSortStrategy.java:736 | mergeHi moving X's last, above Y's last, keeps its state |
| MergeState.HiStepY | src/sorting/TimSortStrategy.java:742 | mergeHi moving Y's last, at least X's last, keeps its state |
| MergeState.HiBlockX | src/sorting/TimSortStrategy.java:763 | moving a block of X up keeps mergeHi's state |
| MergeState.HiBlockY | src/sorting/TimSortStrategy.java:776 | copying a block of Y from tmp keeps mergeHi's state |
| MergeState.HiDone | src/sorting/TimSortStrategy.java:791-804 | once both runs are consumed, mergeHi has the merge in place |
| MergeState.TrimmedInPlace | src/sorting/TimSortStrategy.java:386-407 | merging the trimmed runs in place merges the whole runs |
| MergeState.UnchangedInPlace | src/sorting/TimSortStrategy.java:390-391 | leaving runs whose merge is their concatenation is merging them |
| LibrarySort.Sort | src/sorting/LibrarySortStrategy.java:8-78 | for a non-empty array, the array ends up sorted and a permutation of its input |
| LibrarySort.Insert | src/sorting/LibrarySortStrategy.java:11-59 | the insertion loop terminates with every input element placed: the library with its gaps is sorted and holds exactly the input |
| LibrarySort.Start | src/sorting/LibrarySortStrategy.java:11-20 | the fresh arrays, with library[0] = array[0], satisfy the loop invariant for one placed element |
| LibrarySort.Step | src/sorting/LibrarySortStrategy.java:22-58 | a turn places a[idx] in a free gap (the invariant advances) or, on a collision, rebuilds into the other buffer with no gap filled, so the retry cannot collide again |
| LibrarySort.InsertionPoint | src/sorting/LibrarySortStrategy.java:24-27 | the decoded binary-search result is a gap where the key fits between its neighbours |
| LibrarySort.BinarySearch | src/sorting/LibrarySortStrategy.java:24 | Arrays.binarySearch's documented result: the index of an equal element, or -(insertion point) - 1 with everything before below and everything after above the key |
| LibrarySort.Rebuild | src/sorting/LibrarySortStrategy.java:30-52 | after a collision the other buffer is a gap-free sorted library of the same elements, libSize = tempSize - 1, and every marker is cleared |
| LibrarySort.Interleave | src/sorting/LibrarySortStrategy.java:36-49 | the rebuild loop writes the shelf of library[..libSize + 1] into other, within bounds, and clears every marker |
| LibrarySort.Place | src/sorting/LibrarySortStrategy.java:54-57 | filling the free gap with the key changes only that gap and places one more input element |
| LibrarySort.Append | src/sorting/LibrarySortStrategy.java:38-39 | library[next][tempSize] = x; tempSize++ extends the filled prefix by x |
| LibrarySort.NewMarkers | src/sorting/LibrarySortStrategy.java:17 | new boolean[n] has n markers, none set |
| LibrarySort.Output | src/sorting/LibrarySortStrategy.java:61-75 | the final loop writes exactly the shelf into the array, every write in bounds |
| LibrarySortSpec.ShelfSorted | src/sorting/LibrarySortStrategy.java:54-55 | a sorted library whose filled gaps fit between their neighbours reads as a sorted shelf |
| LibrarySortSpec.ShelfPlace | src/sorting/LibrarySortStrategy.java:54-55 | filling an empty gap with v adds exactly v to the shelf |
| LibrarySortSpec.ShelfNoGaps | src/sorting/LibrarySortStrategy.java:30-52 | with no gap filled the shelf is the library itself |
| LibrarySortSpec.ShelfStale | src/sorting/LibrarySortStrategy.java:44-48 | with no gap filled past the library, one element appended to the library, as the rebuild loop copies at i == libSize, adds exactly that element at the end of the shelf (and nothing when read up to a gap inside the library) |
| LibrarySortSpec.BagOf | src/sorting/LibrarySortStrategy.java:22-59 | the back-to-front element count used by the loop invariant is the multiset of the sequence |
| LibrarySortSpec.InvStart | src/sorting/LibrarySortStrategy.java:12-20 | a one-element library holding array[0] and no filled gap satisfy the invariant for index 1 |
| LibrarySortSpec.InvPlace | src/sorting/LibrarySortStrategy.java:54-56 | filling the free gap where a[idx] fits keeps the library sorted and the gaps fitting, and the shelf then holds a[..idx + 1] |
| LibrarySortSpec.InvCollide | src/sorting/LibrarySortStrategy.java:30-48 | while input remains the library has room for the element past its end, and the shelf holds idx elements, so the rebuild stays in bounds |
| LibrarySortSpec.InvRebuilt | src/sorting/LibrarySortStrategy.java:51-52 | the rebuilt buffer, with libSize = tempSize - 1 and no gap filled, satisfies the invariant for the same index |
| LibrarySortSpec.InvDone | src/sorting/LibrarySortStrategy.java:59-75 | once all input is placed the shelf has arrSize elements, is sorted and is a permutation of the input |
| LibrarySortSpec.PlaceBag | src/sorting/LibrarySortStrategy.java:54-56 | placing a[idx] in a gap adds it to the shelf's count |
| CustomSort.SortEvenOdd | src/sorting/CustomSort.java:7-30 | other-parity positions keep their value, the same positions hold the parity, the parity values in position order are sorted and a permutation of the original ones, and the whole array is permuted |
| CustomSort.RefilledSorted | src/sorting/CustomSort.java:21-29 | refilling from a sorted rearrangement of the parity values gives all of sortEvenOdd's promises |
| CustomSort.SortWith | src/sorting/CustomSort.java:21 | strategy.sort leaves the array sorted and a permutation of its input, under the strategy's demand on the length |
| CustomSort.Extract | src/sorting/CustomSort.java:8-18 | the extraction loop and toArray give a fresh array of the parity elements in position order |
| CustomSort.WriteBack | src/sorting/CustomSort.java:24-29 | the write-back loop gives Scatter of the old array from subArray, every read of subArray in bounds |
| CustomSort.Refilled | src/sorting/CustomSort.java:24-29 | refilled from a rearrangement of its parity elements, the array keeps the other positions, uses the same positions for the parity, reads the refill there, and keeps its elements |
| CustomSort.ScatterKeeps | src/sorting/CustomSort.java:25-28 | positions not of the parity keep their value |
| CustomSort.ScatterParity | src/sorting/CustomSort.java:25-28 | refilled from parity values, a position holds the parity exactly when it did before |
| CustomSort.ScatterPicked | src/sorting/CustomSort.java:11-28 | extracting after the refill gives back the refill sequence |
| CustomSort.ScatterBag | src/sorting/CustomSort.java:8-29 | as multisets, the refilled array plus the extracted elements equals the array plus the refill |
| CustomSort.PickedPrefix | src/sorting/CustomSort.java:24-28 | a prefix has no more parity elements than the whole, so subIndex stays within subArray |
| CustomSort.ScatterStep | src/sorting/CustomSort.java:26-27 | one write-back step takes sub[subIndex] for a parity position and keeps the value otherwise |
| CustomSort.Picked | src/sorting/CustomSort.java:11-15 | the extracted elements are no more than the array and all of the parity |
| CustomSort.AllMatch | src/sorting/CustomSort.java:18-21 | a rearrangement of parity values, as the sort returns, holds only parity values |

## Left out

- The step counter `countSteps`, its getter and the `printf` calls (src/sorting/TimSortStrategy.java:51-55, 97, 100; src/sorting/LibrarySortStrategy.java:10, 77) only observe the run, so they are not modelled.
- The console program, the data readers, `SortContext` and the `SortStrategy` interface are not part of this model. The strategy that `sortEvenOdd` receives is the datatype `CustomSort.Strategy`, one constructor per implementation, and `CustomSort.SortWith` dispatches on it.
- The run stack is a pair of sequences with one entry per pending run, rather than the fixed arrays of 5/10/24/49 entries (src/sorting/TimSortStrategy.java:88-92). Whether those sizes suffice rests on an external analysis. Stale entries above stackSize are not kept.
- Stability (equal elements keeping their order) is not observable over `int` values. The merge functions do state the tie rule (run 1 first), and binary insertion places a pivot after its equals.
- The sort works on `array<int>` rather than `Integer[]`. Boxing and the generic/raw types do not matter for ints.
- `TimSort.TimSortStrategy.Sort` and `SortRange` require the array to be at most INT_MAX long, because no Java array is longer.
- `TimSort.TimSortStrategy.MergeLo`, `MergeHi` and the galloping members are split into small methods (one phase, one move). They keep the source's statements and order, so each proof stays small.
- `TimSort.LowMask` computes `-1 >>> Integer.numberOfLeadingZeros(m)` for a positive int by recursion, not by bit manipulation.
- `LibrarySort.BinarySearch` is the classic binary search with `Arrays.binarySearch`'s documented result. Which index it returns among several equal keys is not taken from the JDK's code, which is not part of this model.
- The two rows of `library[][]` are two arrays that are swapped where the source flips `targetLib`.
- `LibrarySort.Insert` receives the input array's contents as a sequence, since the loop only reads it.
- `new int[arrSize + 1]` overflows for an array of INT_MAX elements. The library sort's lengths are not bounded here, so this overflow is not modelled.
- Java's `%` truncates toward zero, while Dafny's is Euclidean. Both are zero exactly for even numbers, so `CustomSort.Matches` uses Dafny's `%`.
