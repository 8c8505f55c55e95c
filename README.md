# Single-machine scheduling with release times and delivery tails

This project models the algorithm library of `part1/algorithms.cpp`. The
library solves the problem written 1|rj,qj|Cmax. Each job has a release time
rj, a processing time pj and a delivery tail qj. Jobs run one at a time on a
single machine. A job starts once the machine is free and the job is
released. The objective Cmax is the largest completion time plus delivery
tail over all jobs.

The modules follow the library's parts:

- `Tasks`: the job record and the objective.
  - `Finish`, `Start`, `Completion` and `Cmax` are pure definitions of the
    dispatch simulation. `Finish` and `Cmax` recurse on the dispatch order.
  - `CalculateCmax` is `calculateCmax`'s loop, proved equal to `Cmax`.
- `Orders`: one constructor per kind of comparison the sorts use, and what
  "sorted" means for each of them. The `max_element` lambda of the list
  version is modelled by `Schrage.FirstMaxQj`, and the heap version's
  `compareQj` by the `Heap` module.
- `Sorting`: the in-place sorts `sortByRj`, `sortByQj` and `ownAlgorithm`.
  `std::sort` is modelled by an insertion sort on the array, with a
  relational contract: the result is a permutation that is sorted by the key.
- `Groups`: `optimizeGroupsByCmax`. It finds each maximal run of equal rj or
  qj, sorts the run in a buffer with the pairwise-Cmax comparator, and copies
  it back.
- `Heap`: the `std::make_heap`, `std::push_heap` and `std::pop_heap` calls of
  the heap version, as a binary max-heap on qj held in a sequence.
- `Schrage`: the list version of Schrage's rule. It keeps a pending list `N`
  sorted by release time and a ready list `G`. When nothing is ready, the
  clock jumps to the next release. Otherwise it dispatches the first ready
  job with the largest qj.
- `SchrageHeap`: the heap version, where both `G` and `N` are max-heaps on qj.
- `Permutations`: `std::next_permutation` on jobs compared by identifier, and
  the lexicographic order it walks. It is proved to step to the immediate
  successor, and to report false exactly when the arrangement is strictly
  descending.
- `Search`: `findOptimalTaskOrder`, the exhaustive search.
- `ChunkedSearch`: `findOptimalTaskOrderWithThreads`. It lists the
  arrangements, cuts the list into one range per thread, and reduces them
  sequentially.

The two Schrage routines print their result. In the model they return it,
together with the order in which they dispatched the jobs.

The two Schrage routines look interchangeable, but they do not always give
the same Cmax, and the model follows the code of each. In the heap version,
`make_heap` orders `N` by qj, so `N.front()` is a job with the largest qj and
not the earliest release. Such a job is moved to `G` only once it is released
and at the front of `N`. Take A(rj=0, pj=10, qj=1) and B(rj=5, pj=1, qj=10).
The list version dispatches A then B, with Cmax 21. In the heap version, B is
at the front of `N`. At time 0 nothing is moved, so the clock jumps to 5. B
is dispatched at 5, then A at 6, with Cmax 17. The model therefore states no
equivalence between the two versions. For the heap version it proves what the
code does guarantee: every job is dispatched exactly once, and the reported
cost is the Cmax of the dispatch order.

## Model

| member | source | states |
|---|---|---|
| Tasks.Cmax | part1/algorithms.cpp:66-76 | The objective that calculateCmax computes, defined by recursion on the dispatch order: 0 for no jobs, else the larger of the prefix's Cmax and the last job's finish time plus qj. Its contract states that it is never negative. |
| Tasks.CalculateCmax | part1/algorithms.cpp:66-76 | The value returned is `Cmax` of the sequence: the clock moves to max(clock, rj) + pj for each job, and the cost is the largest clock + qj. |
| Tasks.CmaxIsLargestTail | part1/algorithms.cpp:66-76 | Cmax is 0 on the empty order and never negative. It is at least the completion time plus qj of every job, and equals one of those values unless it is 0. |
| Tasks.SingleJob | part1/algorithms.cpp:66-76 | For one job with rj, pj and qj all non-negative, Cmax is rj + pj + qj. |
| Tasks.AppendOne | part1/algorithms.cpp:70-73 | One pass of the loop: appending a job moves the finish time to max(finish, rj) + pj, and the cost to max(cost, finish + qj). The new job starts at max(old finish, rj). |
| Tasks.StartOfPrefix | part1/algorithms.cpp:70-73 | Appending a job changes neither the start time nor the prefix before any earlier job. |
| Tasks.CompletionIsFinish | part1/algorithms.cpp:71 | The completion time of job k is the clock after the first k + 1 passes. |
| Orders.Less | part1/algorithms.cpp:25-26 | The strict "goes before" test of every comparator lambda: lines 25-26, 32-33, 50-55, 92-93, 102-103, 126-127, 132-133 and 243-251. Its contract states that no job goes before itself. |
| Orders.LessAsymmetric | part1/algorithms.cpp:25-26 | No comparator lambda puts a before b and b before a. This covers 25-26, 32-33, 50-55, 92-93 and 243-251. |
| Orders.AdjacentSortedIsSorted | part1/algorithms.cpp:243-251 | For the key comparators (identifier, rj, qj, rj + qj then pj), an order with no out-of-order neighbours has no out-of-order pair at all. |
| Sorting.InsertionSort | part1/algorithms.cpp:50-55 | The range [lo, hi) is permuted within itself and ends with no neighbouring pair out of order. Everything outside the range is untouched. |
| Sorting.SortBy | part1/algorithms.cpp:92-94 | For a key comparator, the array ends up as a permutation of its contents with no pair out of order. |
| Sorting.SortByRj | part1/algorithms.cpp:24-28 | The array ends up as a permutation of its contents, with rj non-decreasing when the flag is set and non-increasing otherwise. |
| Sorting.SortByQj | part1/algorithms.cpp:31-35 | The same for qj. |
| Sorting.OwnAlgorithm | part1/algorithms.cpp:240-254 | The array ends up as a permutation of its contents, ordered by rj + qj ascending, with ties ordered by pj ascending. |
| Groups.RunEnd | part1/algorithms.cpp:40-45 | The scan from i stops at the first j whose key differs from a[i], or at the end. Every key in [i, j) equals a[i]'s key. |
| Groups.RunPlacement | part1/algorithms.cpp:39-45 | The run found from a boundary is a maximal run. Any other maximal run lies wholly before it or wholly after it. |
| Groups.SortGroup | part1/algorithms.cpp:47-59 | Only [i, j) changes, and it is permuted within itself. A run of two ends up in the order whose isolated Cmax is not larger. |
| Groups.GroupStep | part1/algorithms.cpp:47-62 | After one run is handled, the next index is a boundary, everything before it is processed, and the part before the run is unchanged. |
| Groups.ProcessGroup | part1/algorithms.cpp:40-62 | One pass of the outer loop: the run starting at i is handled and the next index is a boundary. The prefix before i and everything from the run's end on are untouched, and the array is still a permutation. |
| Groups.OptimizeGroupsByCmax | part1/algorithms.cpp:37-64 | The array stays a permutation, and every maximal equal-key run of the input is permuted only within itself. So every position keeps its key, a singleton run stays put, and a run of two has a pair Cmax no larger than the swapped pair's. |
| Heap.RootIsMax | part1/algorithms.cpp:229-230 | The front of a max-heap on qj has the largest qj of all its elements. |
| Heap.SiftUpStep | part1/algorithms.cpp:221 | Exchanging an element with a parent that is strictly below it moves the single heap defect one level up. |
| Heap.SiftDownStep | part1/algorithms.cpp:229 | Exchanging an element with its larger child, when that child is strictly above it, moves the defect one level down. |
| Heap.PushHeap | part1/algorithms.cpp:220-221 | The result is a heap holding the old elements plus x. A new element whose qj is not above the front's leaves the front in place. |
| Heap.PopHeap | part1/algorithms.cpp:229-231 | The job returned is the old front and has the largest qj. The rest is a heap of the remaining elements. |
| Heap.MakeHeap | part1/algorithms.cpp:216 | The result is a heap holding exactly the given elements. |
| Schrage.FirstMaxQj | part1/algorithms.cpp:189-191 | Returns the position of a largest qj in G. Every earlier position has a strictly smaller qj, so it is the first maximum. |
| Schrage.SortedByRjIsSorted | part1/algorithms.cpp:174-175 | The order N is kept in, rj non-decreasing, is exactly what sortByRj's ascending comparator calls sorted. |
| Schrage.SortedByRelease | part1/algorithms.cpp:174-175 | N is a copy of the jobs sorted by release time. |
| Schrage.Release | part1/algorithms.cpp:181-184 | The inner loop moves a prefix of N, all released by the clock, to the back of G. What stays in N is empty or released strictly after the clock. |
| Schrage.MovedPrefix | part1/algorithms.cpp:181-184 | Moving that prefix keeps the set of jobs, keeps N sorted, keeps G released by the clock, and leaves in N only jobs released after the clock. |
| Schrage.JumpKeeps | part1/algorithms.cpp:186-187 | With G empty, the clock moves to the front of N's release time, which is strictly later. The loop invariant survives the jump. |
| Schrage.DispatchAt | part1/algorithms.cpp:193-196 | A job dispatched at the clock starts at the clock. The cost becomes max(cost, clock + pj + qj), and earlier start times are unchanged. |
| Schrage.RulesStep | part1/algorithms.cpp:188-196 | Dispatching a released job with the largest qj, at the machine's free time or after a jump, keeps two rules. Greedy: no job released by an earlier start has a larger qj than the job started then. Non-idling: no job starts later than needed. |
| Schrage.DispatchKeeps | part1/algorithms.cpp:188-196 | Dispatching the largest-qj job of G keeps the whole loop invariant, with clock += pj and cost = max(cost, clock + qj). |
| Schrage.Step | part1/algorithms.cpp:180-197 | One pass of the outer loop keeps the invariant. Either fewer jobs remain, or the clock jump has made the next job due, so the loop terminates. |
| Schrage.Dispatch | part1/algorithms.cpp:187-196 | The dispatch branch of a pass, when nothing in N is released: the first job of G with the largest qj, the one max_element finds, is erased from G and appended to the order, the clock advances by its pj and the cost becomes max(cost, clock + qj). The invariant, with the greedy and non-idling rules, is kept. |
| Schrage.FinalKeeps | part1/algorithms.cpp:180 | With both lists empty, every job has been dispatched exactly once and the running cost is the Cmax of the order. |
| Schrage.Schrage | part1/algorithms.cpp:172-201 | The dispatch order is a permutation of the jobs, and the reported cost is its Cmax. The order follows the greedy rule and never idles while a job is released. |
| SchrageHeap.MoveFront | part1/algorithms.cpp:219-224 | Pushing N's released front onto G and rebuilding N from the rest keeps the set of jobs and keeps G released by the clock. |
| SchrageHeap.ReleaseHeap | part1/algorithms.cpp:219-224 | The inner loop keeps both heaps and the set of jobs. It stops with N empty or N's front released after the clock, and moves nothing when it leaves G empty. |
| SchrageHeap.JumpKeeps | part1/algorithms.cpp:226-227 | With G empty, the clock moves strictly forward to N's front release time, and the invariant survives. |
| SchrageHeap.DispatchKeeps | part1/algorithms.cpp:228-234 | Popping G's front and dispatching it keeps the invariant. The running cost stays the Cmax of the dispatch order. |
| SchrageHeap.Step | part1/algorithms.cpp:219-234 | One pass of the outer loop keeps the invariant, and either fewer jobs remain or the jump has made the front of N due. |
| SchrageHeap.SchrageWithHeap | part1/algorithms.cpp:204-238 | The dispatch order is a permutation of the jobs, and the reported cost is its Cmax. |
| Permutations.LexAsymmetric | part1/algorithms.cpp:102-104 | No arrangement comes lexicographically before another and after it too. |
| Permutations.LexTotal | part1/algorithms.cpp:102-104 | Two different arrangements of jobs with distinct identifiers are ordered one way or the other. |
| Permutations.AscendingIsLexMin | part1/algorithms.cpp:92-94 | The ascending arrangement comes first: no arrangement of the same jobs precedes it. |
| Permutations.DescendingIsLexMax | part1/algorithms.cpp:102-104 | The descending arrangement comes last: no arrangement of the same jobs follows it. |
| Permutations.LexLessCode | part1/algorithms.cpp:102-104 | Reading the identifiers as digits in base b, lexicographic order is numeric order of the codes. This is what bounds the do-while loop. |
| Permutations.Pivot | part1/algorithms.cpp:102-104 | The first backward scan of next_permutation: the position of the last ascent (an element with a smaller identifier than its right neighbour), or -1 when there is none. Everything after it is non-increasing. |
| Permutations.SwapTarget | part1/algorithms.cpp:102-104 | The second backward scan: the last position after the pivot whose identifier is above the pivot's. |
| Permutations.Reverse | part1/algorithms.cpp:102-104 | std::reverse as a value: position k receives the element from the mirrored position. |
| Permutations.Next | part1/algorithms.cpp:102-104 | The successor next_permutation produces: the prefix before the pivot, then the swap target at the pivot, then the rest reversed. Its contract states the length and the element placed at the pivot. |
| Permutations.WrapsToFirst | part1/algorithms.cpp:102-104 | When there is no ascent, the reversal that next_permutation performs before it returns false gives the strictly ascending arrangement, the first one. |
| Permutations.CodeBound | part1/algorithms.cpp:102-104 | A code of n digits in base b is below b to the power n. |
| Permutations.NoPivotIsDescending | part1/algorithms.cpp:102-104 | For distinct identifiers, there is no ascent exactly when the arrangement is strictly descending. So next_permutation reports false exactly after the last arrangement. |
| Permutations.NextShape | part1/algorithms.cpp:102-104 | The successor keeps the jobs and the prefix before the pivot. It puts the last larger element at the pivot and leaves the suffix strictly ascending. |
| Permutations.NextIsLarger | part1/algorithms.cpp:102-104 | The successor comes strictly after the arrangement. |
| Permutations.NextIsImmediate | part1/algorithms.cpp:102-104 | No arrangement of the same jobs lies strictly between an arrangement and its successor. |
| Permutations.FindPivot | part1/algorithms.cpp:102-104 | The scan from the back finds the last ascent. |
| Permutations.FindSwapTarget | part1/algorithms.cpp:102-104 | The scan from the back finds the last element above the pivot. |
| Permutations.ReverseRange | part1/algorithms.cpp:102-104 | The range [lo, hi) of the array is reversed in place, and the rest is untouched. |
| Permutations.NextPermutation | part1/algorithms.cpp:102-104 | Returns true exactly when the arrangement has an ascent. In that case the array becomes the lexicographic successor; otherwise it is reversed, which by `WrapsToFirst` is the ascending arrangement. |
| Search.NumberedPerm | part1/algorithms.cpp:96-104 | Rearranging jobs with distinct identifiers 1..n keeps them distinct and within 1..n. |
| Search.SortedIsFirst | part1/algorithms.cpp:92-94 | Sorting by identifier gives the first arrangement in lexicographic order. |
| Search.BeforeNext | part1/algorithms.cpp:102-104 | An arrangement before the successor of cur is cur itself or comes before cur. |
| Search.BeforeLast | part1/algorithms.cpp:102-104 | When cur has no ascent, every arrangement is cur or comes before cur. |
| Search.EnumStep | part1/algorithms.cpp:96-104 | After visiting cur, every arrangement before the next one has been visited. After the last one, every arrangement has. |
| Search.CodeGrows | part1/algorithms.cpp:102-104 | Each step that goes on strictly increases the bounded code of the arrangement, so the do-while loop terminates. |
| Search.VisitKeeps | part1/algorithms.cpp:97-101 | The strict comparison keeps an invariant. The best is a visited arrangement with the least Cmax so far, and every arrangement before it in lexicographic order is strictly worse. |
| Search.Visit | part1/algorithms.cpp:96-104 | One pass of the do-while loop keeps the enumeration and best invariants, and increases the code when the walk goes on. |
| Search.FindOptimalTaskOrder | part1/algorithms.cpp:86-112 | The array ends as a permutation of its jobs. Its Cmax is no larger than that of any arrangement, and every arrangement lexicographically before it is strictly worse, so it is the first optimum. |
| Search.WriteBest | part1/algorithms.cpp:111 | With every arrangement visited, writing back the best gives a minimum-Cmax arrangement that is the first optimum. |
| Search.CopyBack | part1/algorithms.cpp:111 | The array receives the given order element by element. |
| ChunkedSearch.OrderStep | part1/algorithms.cpp:130-131 | Recording an arrangement that comes after the last recorded one keeps the list in strictly increasing lexicographic order. |
| ChunkedSearch.Record | part1/algorithms.cpp:130-134 | One pass of the listing loop appends the current arrangement to the list. It reports true exactly when there is an ascent, and the vector then holds `Next` of the arrangement; otherwise it holds the reversal. The walk and the order of the list are kept. |
| Permutations.LexTrans | part1/algorithms.cpp:102-104 | Lexicographic order is transitive. |
| ChunkedSearch.IncreasingChain | part1/algorithms.cpp:129-134 | In the recorded list every earlier arrangement comes lexicographically before every later one. |
| ChunkedSearch.ListArrangements | part1/algorithms.cpp:125-134 | The list holds only arrangements of the jobs, holds every arrangement, and is in strictly increasing lexicographic order. |
| ChunkedSearch.Boundary | part1/algorithms.cpp:150-152 | Where thread t's range starts. This is t * chunkSize for every thread, and the list's size after the last thread, so the last range takes the remainder. |
| ChunkedSearch.BoundaryOrdered | part1/algorithms.cpp:136 | With chunkSize = total / numThreads, the boundaries rise from 0 to total without going down, so the ranges are contiguous, disjoint and cover the list. |
| ChunkedSearch.ThreadRange | part1/algorithms.cpp:150-152 | startIdx and endIdx are thread t's two consecutive boundaries. The last thread's range ends at the list's size. |
| ChunkedSearch.ProcessChunk | part1/algorithms.cpp:139-148 | After scanning [lo, hi), the best is no worse than any arrangement of the range nor than the best before. It is either the best before or an arrangement of the range with that Cmax. Scanned right after the earlier ranges, the best is the first arrangement that attains it, because only a strictly smaller Cmax replaces it. |
| ChunkedSearch.FirstBestStep | part1/algorithms.cpp:142-145 | A strictly better arrangement that replaces the best is the first arrangement scanned so far that attains the new best. |
| ChunkedSearch.ScanAll | part1/algorithms.cpp:136-158 | After all ranges, taken one after the other, the best is the Cmax of a recorded arrangement and no larger than any recorded arrangement's Cmax. Every recorded arrangement before it is strictly worse. |
| ChunkedSearch.FindOptimalTaskOrderWithThreads | part1/algorithms.cpp:116-169 | The array ends as a permutation of its jobs, and its Cmax is the smallest over all arrangements. With one thread, every arrangement lexicographically before it is strictly worse, so it is the first optimum, as with the sequential search. |
| ChunkedSearch.FirstOptimum | part1/algorithms.cpp:129-148 | When the kept arrangement is the first in the increasing list that attains the best, every arrangement lexicographically before it has a strictly larger Cmax. |

## Left out

- `loadTasksFromFile` (lines 4-21) and `printTasks` (lines 78-82) are file and stream I/O.
- Identifiers are assigned by `loadTasksFromFile`. The two searches therefore take as a precondition that identifiers are distinct and run from 1 to n.
- The timing with `std::chrono` and the output with `std::cout` are left out (lines 90, 106-109, 122, 161-165, 200, 237).
- The threads and the mutex of `findOptimalTaskOrderWithThreads` (lines 119, 137, 153, 156-158) are not modelled.
  - The model scans the ranges one after the other, which is one interleaving the mutex allows.
  - `numThreads` is required to be at least 1.
- ChunkedSearch.FindOptimalTaskOrderWithThreads: with more than one thread, claims only that the result has the minimum Cmax, not which tied optimum is kept, because that depends on the order in which threads take the mutex. With one thread there is a single scan, and the first optimum is claimed.
- `int` and `size_t` are unbounded integers in the model. Overflow of the clock, of the running cost, or of `t * chunkSize` is not modelled. The `INT_MAX` sentinel for "no best yet" (lines 88, 118) is an `Option`.
- Sorting.InsertionSort: `std::sort` is modelled by an insertion sort. Only "a sorted permutation" is claimed, not the particular order `std::sort` gives to ties.
- Heap.PushHeap, Heap.PopHeap, Heap.MakeHeap: the standard heap algorithms are modelled by sift-up and sift-down on a sequence. Only the heap property and the contents are claimed, not the exact layout the library produces. The exception is that a push keeps the front when the new qj is not above it, which the cost proof of the heap version needs. The C++ standard does not promise this: it is how the sift-up of libstdc++ and libc++ behaves, since it stops at a parent that is not strictly below the new element.
- Groups.OptimizeGroupsByCmax: runs of three or more jobs are claimed to be only permuted within themselves. The pairwise-Cmax comparator is not a strict weak ordering, so no sortedness is claimed for them.
- Schrage.Schrage: requires every pj to be non-negative, for two reasons.
  - The greedy and non-idling rules need the clock never to go backwards.
  - With a negative pj, `cmax == Cmax(order)` fails too. The clock can drop below the release time of a job already in G, and the code then starts that job before its release. Take A(rj=0, pj=5, qj=0), B(rj=4, pj=-10, qj=205) and C(rj=5, pj=1, qj=200). The code dispatches A, B, C and reports 200, but C cannot start before 5, so the Cmax of that order is 206.
- SchrageHeap.SchrageWithHeap: also requires every pj to be non-negative, for the same reason as the list version. It states no equivalence with the list version, because the code does not give one (see the counterexample above).
- The caller's vector is never changed by the Schrage routines, since they copy it into `N`. The model takes the jobs as a value.
- `part1/main.cpp` is a driver with hard-coded calls and is not part of this model.
