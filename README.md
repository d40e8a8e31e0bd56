# pct's approximate top-K counter, in Dafny

`pct` tallies the lines of its input exactly, in a map from line to count
(`pct.go`). `topk.go` defines `topK`, an approximate alternative to that
tally; nothing in `pct.go` calls it. `topK` does two things:

- it estimates how often each line occurs with a count-min sketch that uses
  conservative update;
- it keeps the k lines with the highest estimates in a fixed-size min-heap.

This project models `topk.go` and proves properties of the model.

- `uint.dfy` (module `Uint`): Go's `byte` and `uint64`, with 64-bit
  wrap-around made explicit (`Add64`, `Mul64`).
- `order.dfy` (module `Order`):
  - `stringCount`, and `stringsByCount.Less` (count descending, then Go's
    byte-wise string order);
  - what `sort.Sort` establishes (`Sorted`), and an in-place insertion sort
    that establishes it;
  - the proof that a sorted arrangement of given entries is unique.
- `sketch.dfy` (module `Sketch`): the sketch as values. It covers the column
  formula, the probed cells and their minimum, the candidate `max++`, and the
  conservative update. `Run` applies the update to a whole stream of items,
  and the lemmas state what one update and a whole stream do.
- `heap.dfy` (module `Heap`):
  - the heap order, and the admission rule of `Record` as a function
    (`Admit`) with its main lemma;
  - the class `TopHeap`, holding the slot slice with `Len`, `Less`, `Swap`,
    `Push` and `Pop`;
  - `container/heap`'s `Fix`, written out as `SiftDown`/`SiftUp`.
- `topk.dfy` (module `TopK`): the class `TopK`, with `newTopK` as its
  constructor and `Record`, `Top` and `All` as methods. Its ghost state is the
  matrix as values (`Cells`), the stream recorded so far (`Recorded`) and the
  capacity `K`. `Valid()` says three things:
  - the counters are exactly `Sketch.Run` of the recorded stream;
  - the slots form a min-heap of `K` entries;
  - no item is tracked in two slots.

The counter matrix `[][]uint64` is modelled as a `d × w` two-dimensional
array. `newTopK` allocates every row once, with width `w`, and nothing
reallocates, shares or resizes a row afterwards.

The hash (`murmur3.Sum128`) is a parameter of the constructor: a function from
the item's bytes to two `uint64` halves. It is fixed for the lifetime of the
object, so equal items always hash to equal columns.

The doc comment at `topk.go:49-53` names the dimensions the way the code uses
them. `w` is the width of each row and `d` is the number of rows, one per hash
function; the code makes `d` rows (line 56), each `w` counters wide (line 63),
and takes columns modulo `w` (line 74). The typical sizes it gives are the
other way round from usual count-min practice, which pairs a small depth with
a wide row: it suggests 4-8 for `w` and 1024-16384 for `d`. Sizes do not
affect the model, which takes the dimensions from the code.

`Heap.TopHeap.Len` and `Heap.TopHeap.Less` model `topHeap.Len` and
`topHeap.Less` (`topk.go:39-40`). They are plain functions: `SiftDown` takes
the length from `Len`, and `SiftDown` and `SiftUp` compare slots with `Less`.
Their properties are stated through `IsHeap` and the sift lemmas.

## Model

| member | source | states |
|---|---|---|
| Uint.Mul64 | topk.go:74 | uint64 multiplication, `uint64(i)*y`: the product reduced modulo 2^64 (a definition; its use is characterised by Sketch.OffsetIsDoubleHash) |
| Uint.Add64 | topk.go:83 | uint64 addition: the exact sum below 2^64, otherwise the sum minus 2^64 (so `max++` turns math.MaxUint64 into 0) |
| Order.StrLess | topk.go:24 | Go's string `<` on bytes: the first differing byte decides, and a proper prefix comes first (a definition; its order properties are the three lemmas below) |
| Order.StrLessIrreflexive | topk.go:24 | Go's string `<` is irreflexive |
| Order.StrLessTransitive | topk.go:24 | Go's string `<` is transitive |
| Order.StrLessTotal | topk.go:24 | of two different strings, one is `<` the other |
| Order.Less | topk.go:19-25 | stringsByCount.Less: the larger count first, and on equal counts the smaller string first (a definition; its order properties are the four lemmas below) |
| Order.Sorted | topk.go:113 | what sort.Sort(stringsByCount(l)) establishes: no entry is Less than its predecessor (a definition; SortedPairwise and SortedUnique state what it implies) |
| Order.LessIrreflexive | topk.go:19-25 | no entry is Less than itself |
| Order.LessTransitive | topk.go:19-25 | stringsByCount.Less is transitive |
| Order.LessAsymmetric | topk.go:19-25 | x Less y and y Less x never both hold |
| Order.LessTotal | topk.go:19-25 | two entries are equal or one is Less than the other: the only ties are identical entries |
| Order.SortedPairwise | topk.go:113 | in a sorted slice no later entry is Less than an earlier one, for any two positions |
| Order.SortedUnique | topk.go:113 | two sorted arrangements of the same multiset of entries are equal, so the result of sort.Sort does not depend on the algorithm |
| Order.Swap | topk.go:26 | stringsByCount.Swap exchanges exactly entries i and j and keeps the multiset |
| Order.SortByCount | topk.go:113 | sort.Sort(stringsByCount(a)) in place: afterwards a is Sorted and a permutation of its old contents |
| Sketch.Offset | topk.go:74 | the column of row i is below w |
| Sketch.OffsetIsDoubleHash | topk.go:74 | the column equals ((x + i*y) mod 2^64) mod w, although Go wraps the product and the sum separately |
| Sketch.Offsets | topk.go:73-75 | the cached offsets: d of them, each below w |
| Sketch.Columns | topk.go:71-75 | the columns an item hashes to: one per row, each in range |
| Sketch.Zero | topk.go:54-66 | the matrix newTopK makes: d rows of w cells, each 0 |
| Sketch.Min | topk.go:77-81 | the reduction from math.MaxUint64: at most every probed cell, equal to one of them when d >= 1, math.MaxUint64 when d = 0 |
| Sketch.Probe | topk.go:78 | the cells `t.x[i][t.h[i]]`, one per row (a definition used by Candidate, Estimate and TopK.TopK.ProbeMin) |
| Sketch.Candidate | topk.go:83 | `max++`: one more than the probed minimum, wrapping to 0 past math.MaxUint64 (a definition; RaisesExactlyMinimalCells and WrapLeavesSketch state both cases) |
| Sketch.Bump | topk.go:86-88 | the update of one row: the probed cell rises by one if it is below c; the row keeps its length and every other cell |
| Sketch.Update | topk.go:84-89 | the result keeps the shape; a cell that is not probed keeps its value; a probed cell below c rises by one, any other probed cell stays |
| Sketch.Run | topk.go:70-89 | the sketch after a stream keeps the d × w shape |
| Sketch.RunSnoc | topk.go:70-89 | recording one more item applies exactly one conservative update with that item's candidate |
| Sketch.RecordStep | topk.go:77-89 | one Record step takes the sketch of a stream to the sketch of the stream extended by b, and, when d >= 1 and fewer than math.MaxUint64 items came before b, the candidate is at least b's count in the extended stream |
| Sketch.RaisesExactlyMinimalCells | topk.go:77-89 | when the minimum is below math.MaxUint64, the candidate is the minimum plus one; a probed cell changes if and only if it held the minimum; each changed cell lands on the candidate, one above its old value |
| Sketch.UpdateNeverDecreases | topk.go:84-89 | no cell decreases and none rises by more than one |
| Sketch.PostUpdateMin | topk.go:72-89 | with d >= 1 and the minimum below math.MaxUint64, every probed cell ends at least at the candidate, and their new minimum is the candidate |
| Sketch.WrapLeavesSketch | topk.go:72-89 | with d = 0, or every probed cell at math.MaxUint64, `max++` wraps the candidate to 0 and the update changes nothing |
| Sketch.EstimatesNeverDecrease | topk.go:84-89 | one update lowers no item's estimate, whichever item is updated |
| Sketch.RunBounded | topk.go:84-89 | after n items no counter exceeds n |
| Sketch.RunNoUndercount | topk.go:70-89 | the sketch never undercounts: while at most math.MaxUint64 items have been recorded (d >= 1, w > 0), every item's estimate is at least its number of occurrences |
| Sketch.CellAtMostCount | topk.go:70-89 | when every other recorded item hashes to a different column than b in row r, b's cell in row r is at most b's count |
| Sketch.RunExactWithoutCollision | topk.go:70-89 | the exact half of one-sided error: when some row separates b from every other recorded item (and at most math.MaxUint64 items were recorded), b's estimate equals its count |
| Sketch.CandidateIsNewEstimate | topk.go:77-89 | the candidate Record computes for b is b's estimate right afterwards, and is at least b's count so far |
| Sketch.RunStepMonotone | topk.go:70-89 | recording any one item lowers no estimate |
| Sketch.RunMonotone | topk.go:70-89 | recording any further items lowers no estimate |
| Sketch.CandidatesIncrease | topk.go:77-89 | candidates for the same item strictly increase from one occurrence to the next, whatever is recorded in between (below 2^64 - 1 items) |
| Heap.HeapAfterSet | topk.go:97-104 | overwriting one slot of a heap leaves every edge not at that slot in order: the precondition of heap.Fix |
| Heap.RootIsMin | topk.go:103 | the root of a heap has the smallest count, so the evicted entry is a minimum |
| Heap.SwapDown | topk.go:98 | one sift-down swap with the smaller child moves the out-of-order slot one level down |
| Heap.DownDone | topk.go:98 | sift-down stopping at a slot with no child below it leaves only the edge above that slot to repair |
| Heap.UpDone | topk.go:98 | sift-up stopping at the root, or below a parent that is not above it, restores the heap |
| Heap.SwapUp | topk.go:98 | one sift-up swap with a parent above it moves the out-of-order slot one level up |
| Heap.Tracks | topk.go:95 | the scan's test: the slot holds b with a nonzero count (a definition used by FirstTracking, AdmitUpdatesOrEvicts and TopK.TopK.Tracking) |
| Heap.FirstTracking | topk.go:94-95 | the scan's result: the first slot `i` with `s == b` and `n > 0`, or the length when there is none |
| Heap.Admit | topk.go:91-104 | the admission rule: below the root's count the slots stay; else the first slot tracking b takes count c, and failing that the root becomes (b, c) (a definition; AdmitUpdatesOrEvicts states what it guarantees) |
| Heap.AdmitUpdatesOrEvicts | topk.go:91-104 | a candidate below the root's count leaves the slots unchanged. Otherwise `(b, c)` is admitted. It replaces the slot tracking b if there is one, else the root, which holds a minimum. The number of slots stays the same, and no item ends up in two slots |
| Heap.UniqueAfterReplace | topk.go:97-103 | replacing a slot by an entry whose string no other slot tracks keeps items unique; the multiset changes by exactly that one entry |
| Heap.TopHeap.constructor | topk.go:57 | make(topHeap, k): k slots, each {"", 0} |
| Heap.TopHeap.Len | topk.go:39 | topHeap.Len: the number of slots, which SiftDown uses as the heap size |
| Heap.TopHeap.Less | topk.go:40 | topHeap.Less: slot i's count is below slot j's (the order IsHeap and the sift methods use) |
| Heap.TopHeap.Swap | topk.go:41 | exchanges exactly slots i and j |
| Heap.TopHeap.Push | topk.go:42 | appends x |
| Heap.TopHeap.Pop | topk.go:43-47 | removes and returns the last slot |
| Heap.TopHeap.SiftDown | topk.go:98 | container/heap's down: keeps the multiset; if the entry moved the heap is restored, else nothing changed and only the edge above remains to repair |
| Heap.TopHeap.SiftUp | topk.go:98 | container/heap's up: keeps the multiset and restores the heap |
| Heap.TopHeap.Fix | topk.go:98 | heap.Fix after one slot was overwritten: same multiset and length, heap order restored |
| TopK.TopK.constructor | topk.go:54-66 | newTopK(k, d, w): a d × w matrix of zeros, k slots of {"", 0}, d offsets; the object invariant holds |
| TopK.TopK.Record | topk.go:70-105 | the counters become the conservative update of the old ones with b's columns and candidate. The slots become Admit's multiset. A candidate below the root leaves the slots untouched. When d >= 1 and at most math.MaxUint64 items have been recorded, b included, the candidate is at least b's count. The invariant is kept: counters equal Run of the stream, min-heap, unique items |
| TopK.TopK.UpdateSketch | topk.go:71-89 | the sketch half of Record: it returns the candidate, caches b's columns and applies the update, so the counters stay Run of the extended stream |
| TopK.TopK.Locate | topk.go:71-83 | the first two loops and `max++`: the offsets cache holds b's columns and the result is the candidate |
| TopK.TopK.FillOffsets | topk.go:73-75 | the offsets loop leaves t.h equal to the offsets of the hash halves |
| TopK.TopK.ProbeMin | topk.go:72-81 | the minimum loop returns the smallest probed cell, or math.MaxUint64 |
| TopK.TopK.Increment | topk.go:84-89 | the increment loop turns the counters into the conservative update |
| TopK.TopK.Tracking | topk.go:94-95 | the linear scan finds the first slot tracking b, or reports that there is none |
| TopK.TopK.Offer | topk.go:90-104 | the heap half of Record: the slots become a permutation of Admit's result, still a heap with unique items and the same length; below the root nothing changes |
| TopK.TopK.Top | topk.go:107-115 | fails exactly when n is not the number of slots. Otherwise it returns the slots sorted by stringsByCount.Less, as a permutation. It has no modifies clause, so the slots are not changed |
| TopK.TopK.All | topk.go:117-119 | always fails |
| TopK.TopK.TopTwice | topk.go:107-115 | two calls of Top on the same state return the same result |

## Left out

- `murmur3.Sum128` (`topk.go:71`) is a parameter of the model, a function from the item's bytes to two `uint64`s. Its internals are a foreign library.
- `container/heap` and `sort` are not part of the source. `heap.Fix` is written out as sift-down, then sift-up when the entry did not move, as `container/heap` does. `sort.Sort` is modelled by an insertion sort with the same postcondition: sorted and a permutation. It is not Go's pdqsort. Because the only ties under `Less` are identical entries, every sorting algorithm gives the same result (`Order.SortedUnique`).
- `container/heap`'s `down` also stops when `2*i+1` overflows `int`. Dafny integers are unbounded, so that branch is left out.
- Go panics become preconditions or error results:
  - `Record` requires at least one slot, because `t.top[0]` panics when k = 0;
  - it requires w > 0 whenever d > 0, because of the division by zero at line 74;
  - `Pop` requires a non-empty heap;
  - `newTopK` takes natural numbers. `make` panics on a negative k or d, and on a negative w when d > 0; with d = 0 the row loop never runs, so Go accepts a negative w there, a case the model does not admit;
  - `Top` with the wrong n and `All` return a `Failure` value instead of panicking.
- `Push` and `Pop` are modelled but never called: `Record` changes slots in place and calls only `Fix`.
- TopK.TopK.Top: `top.items` stays unchanged because there is no modifies clause, not because of an `ensures` clause.
- Counters at math.MaxUint64 are not restricted. The no-undercount lemmas assume at most math.MaxUint64 recorded items, which keeps every counter at most that value (`Sketch.RunBounded`).
- Probabilistic accuracy bounds of count-min are not properties of this code.
- `pct.go` (the exact tally, input scanning, flag parsing and output formatting) is not part of this model.
