# Verified models of a coursework repository

The repository holds coursework in systems programming and computer architecture. These Dafny modules model its
algorithmic cores and prove what they are for. Each module follows one or a few source files:

| files | what they model |
|---|---|
| Arithmetic64 | 64-bit division built from a 64-by-32-bit divide that traps on overflow |
| SplayShape, SplayCost, SplayTree | the bottom-up splay tree with its depth limit, its rebalancing, its cache of the last splayed key, and its walk on explicit stacks; what searches cost |
| ListSort, ListLinks, KernelList | the Pintos doubly linked list with sentinels: splicing, reversing, and a natural merge sort in place |
| Scheduler, Semaphores, KernelRuns, RunTheorems, StepLaws, Progress, Conditions, Kernel, ThreadLists, SleepingThreads | Pintos threads, semaphores, locks, condition variables and `timer_sleep` |
| Bitmap, Palloc, Malloc | the Pintos page and block allocators |
| InodeData, FileSystem, Volume | the Pintos base file system |
| HashTable | the Pintos hash table with resizing |
| MatrixMultiply | three matrix multiplications with differently ordered loops |
| HeapSort | the C library's heap sort and binary search |
| Ustar | ustar archive headers and the octal printing they rely on |
| Arm, Pipeline | ARM branches from assembler to emulator, and the emulator's pipeline |
| Wrappers, Powers | a type and a function that several of these use |

Code that works in place is modelled by classes, arrays and loops, and every such method is proved against a function
of the state before it; what the code promises is then proved of these functions. Concurrency is a transition system:
a step is a section that runs with interrupts off, or code that nothing else depends on, and the theorems range over
all interleavings of such steps and timer interrupts. Addresses in the allocators are numbers, machine words are
integers with explicit wrap-around or bit-vectors, and memory or free pages may run out wherever the source allows for
it: parameters say whether an allocation succeeds, or how many slots of the directory can be read before one fails.

Where the code does not do what one might expect, the model keeps the code and a lemma says exactly when it does:

* `umod64` and `smod64` return 32 bits (`UmodExactIffSmallDivisor`, `SmodExactIffSmallDivisor`), and `sdiv64` wraps
  for one pair of operands (`SdivTruncatesTowardZero`).
* Rebalancing a splay tree from outside leaves the cache of the last splayed key stale unless the key lies between the
  neighbours of the middle node (`RebalanceKeepsCacheIff`).
* `list_splice` must not move a segment into itself (`SpliceIntoItselfBreaks`).
* `malloc` computes the size of a big request in 32 bits (`PagesSufficeIff`).
* The scans of the directory take a failed allocation for the end of the file, against the comment in `dir_add`: a name
  can get into the directory twice, or take the slot of another file (`AddUpdatesMapIff`, `AddDoublesIff`,
  `AddOverwritesIff`, with `AddCanDouble` and `AddCanOverwrite`). Ownership of sectors does not suffer
  (`NoSectorOwnedTwice`), and names stay different while every slot can be read (`EnoughMemoryKeepsNames`).
* `filesys_create` does not free the data sectors when `dir_add` fails (`CreateLeaksIff`, `CreateCanLeak`). Runs in which
  this and overwriting do not happen lose no sector (`AccountedKeptIff`, `NothingLost`).
* `mm3` with `min` defined away needs a block size that divides the matrix size (`TilesFitIff`).
* The emulator's `cmp` takes the flag N from bit 30 and leaves V alone, so signed conditions behind it are right
  exactly where bit 30 of the difference is its sign (`ConditionsMean`, `CompareBranchesIff`).
* The emulator's `isBranch` is not assigned when a condition fails, and an instruction that writes r15 does not empty
  the pipeline (`CycleIsStepIff`, `StaleFlagSkips`, `WrittenCounterIsLate`); the assembler does not
  check whether a label can be reached (`BranchRoundTripIff`, `NearestUnreachable`, `StaysBranchIff`).

## Model

| member | source | states |
|---|---|---|
| Arithmetic64.LeadingZerosUnique | Year2/Pintos_Project/pintos_task0_sk4520/src/lib/arithmetic.c:39-73 | The number of leading zeros is the only shift that brings the top bit of a word to bit 31. |
| Arithmetic64.Nlz | Year2/Pintos_Project/pintos_task0_sk4520/src/lib/arithmetic.c:42-73 | The five window-halving steps return the number of leading zeros. |
| Arithmetic64.SmallDivisor | Year2/Pintos_Project/pintos_task0_sk4520/src/lib/arithmetic.c:80-112 | For divisors below 2^32 the two chained divides give floor(n/d) and neither can overflow. |
| Arithmetic64.EstimateOffByAtMostOne | Year2/Pintos_Project/pintos_task0_sk4520/src/lib/arithmetic.c:119-124 | For larger divisors the normalised divide cannot trap, and its estimate is the true quotient or one more. |
| Arithmetic64.EstimateCanBeOneTooBig | Year2/Pintos_Project/pintos_task0_sk4520/src/lib/arithmetic.c:119-124 | The estimate is one too big for some operands, so the correction at the end is needed. |
| Arithmetic64.LargeDivisor | Year2/Pintos_Project/pintos_task0_sk4520/src/lib/arithmetic.c:113-126 | The corrected estimate is floor(n/d). |
| Arithmetic64.UdivIsFloorDivision | Year2/Pintos_Project/pintos_task0_sk4520/src/lib/arithmetic.c:78-127 | For all 64-bit operands: traps exactly on a zero divisor, and is floor(n/d) otherwise. |
| Arithmetic64.UmodIsTruncatedRemainder | Year2/Pintos_Project/pintos_task0_sk4520/src/lib/arithmetic.c:132-135 | The result is n mod d cut to 32 bits. |
| Arithmetic64.UmodExactIffSmallDivisor | Year2/Pintos_Project/pintos_task0_sk4520/src/lib/arithmetic.c:132-135 | The unsigned remainder is right for every dividend exactly when d <= 2^32. |
| Arithmetic64.SdivTruncatesTowardZero | Year2/Pintos_Project/pintos_task0_sk4520/src/lib/arithmetic.c:140-146 | Signed division truncates toward zero, except exactly for INT64_MIN / -1, which wraps to INT64_MIN; traps exactly on zero. |
| Arithmetic64.SmodIsTruncatedRemainder | Year2/Pintos_Project/pintos_task0_sk4520/src/lib/arithmetic.c:151-154 | The signed remainder is the remainder of truncating division cut to 32 bits, and right exactly when that fits. |
| Arithmetic64.SmodExactIffSmallDivisor | Year2/Pintos_Project/pintos_task0_sk4520/src/lib/arithmetic.c:151-154 | The signed remainder is right for every dividend exactly when -2^31 <= d <= 2^31. |
| SplayShape.RotateKeepsOrder | Year4/advanced-computer-architecture/SplayTrees/bounds-splay-tree.c:122-184 | Each of the zig, zig-zig and zig-zag rotations leaves the in-order sequence of nodes unchanged. |
| SplayShape.LocateFindsNearest | Year4/advanced-computer-architecture/SplayTrees/bounds-splay-tree.c:80-97 | The search ends at the key, or at its immediate predecessor or successor. |
| SplayShape.ClimbOneLevel | Year4/advanced-computer-architecture/SplayTrees/bounds-splay-tree.c:107-185 | Climbing one level further is at most one more rotation, and none when a double rotation went past this level. |
| SplayShape.SplayedStep | Year4/advanced-computer-architecture/SplayTrees/bounds-splay-tree.c:70-185 | The result at a link follows from the result at the child link by at most one rotation: the recursion of the helper. |
| SplayShape.SplayedNear | Year4/advanced-computer-architecture/SplayTrees/bounds-splay-tree.c:107-115 | After a call the located node hangs from this link, the parent's or the grandparent's. |
| SplayShape.SplayIsSound | Year4/advanced-computer-architecture/SplayTrees/bounds-splay-tree.c:70-185 | Splaying any search tree around any key keeps the in-order sequence and puts the key, or its neighbour if absent, at the root. |
| SplayShape.BalancedInOrder | Year4/advanced-computer-architecture/SplayTrees/bounds-splay-tree.c:200-219 | The relinked tree has the nodes in the same order. |
| SplayShape.BalancedHeight | Year4/advanced-computer-architecture/SplayTrees/bounds-splay-tree.c:200-219 | Its height is exactly floor(log2 n) + 1. |
| SplayShape.JoinInOrder | Year4/advanced-computer-architecture/SplayTrees/bounds-splay-tree.c:372-383 | Hanging the right subtree off the right-most node of the left one keeps the order. |
| SplayTree.HandOff | Year4/advanced-computer-architecture/SplayTrees/bounds-splay-tree.c:109-115 | A call sees that its node is gone exactly by comparing what its links hold with the located node. |
| SplayTree.ZigZigLinked | Year4/advanced-computer-architecture/SplayTrees/bounds-splay-tree.c:140-163 | The pointer stores of a double rotation produce the links of the rotated tree. |
| SplayTree.StepsBound | Year4/advanced-computer-architecture/SplayTrees/bounds-splay-tree.c:468-543 | At every point of the walk the stack is shorter than the number of nodes, and 4n steps are not used up. |
| SplayTree.WalkBounds | Year4/advanced-computer-architecture/SplayTrees/bounds-splay-tree.c:468-543 | The stack index stays below num_keys and the number of iterations below 4 * num_keys while the walk goes on. |
| SplayTree.RebalanceKeepsCacheIff | Year4/advanced-computer-architecture/SplayTrees/bounds-splay-tree.c:225-243 | Rebalancing outside a splay keeps the last-splayed cache right exactly when the cached key lies strictly between the neighbours of the middle node. |
| SplayTree.RebalanceCanLeaveCacheStale | Year4/advanced-computer-architecture/SplayTrees/bounds-splay-tree.c:225-243 | Three keys for which it does not. |
| SplayTree.InsertRootSound | Year4/advanced-computer-architecture/SplayTrees/bounds-splay-tree.c:324-353 | Putting a new key on top of a tree splayed around it gives a search tree with one node more. |
| SplayTree.RemoveRootSound | Year4/advanced-computer-architecture/SplayTrees/bounds-splay-tree.c:362-386 | Removing the root gives a search tree with that node less. |
| SplayTree.PredecessorFromRoot | Year4/advanced-computer-architecture/SplayTrees/bounds-splay-tree.c:416-428 | After splaying, the predecessor is the root or the right-most node of its left subtree, or there is none. |
| SplayTree.SuccessorFromRoot | Year4/advanced-computer-architecture/SplayTrees/bounds-splay-tree.c:444-455 | The same for the successor. |
| SplayTree.SplayTree.SplayHelper | Year4/advanced-computer-architecture/SplayTrees/bounds-splay-tree.c:70-185 | Called at any link: aborts exactly when the search is deeper than the limit, leaving all links alone; otherwise leaves the tree as the specification of splaying says and returns the located node. |
| SplayTree.SplayTree.ForEach | Year4/advanced-computer-architecture/SplayTrees/bounds-splay-tree.c:468-543 | Visits the nodes in key order, each once, in exactly 4 * num_keys iterations, or stops at the first node for which the function returns nonzero. |
| SplayTree.SplayTree.RelinkRange | Year4/advanced-computer-architecture/SplayTrees/bounds-splay-tree.c:200-219 | Relinks a range of the array as the balanced tree of that range and touches no other node. |
| SplayTree.SplayTree.Rebalance | Year4/advanced-computer-architecture/SplayTrees/bounds-splay-tree.c:225-243 | Relinks trees of more than two keys in balanced form, with the same in-order sequence. |
| SplayTree.SplayTree.BalancedIsShallow | Year4/advanced-computer-architecture/SplayTrees/bounds-splay-tree.c:267-280 | A rebalanced tree of fewer than 2^32 nodes is never too deep for a search, so abort is unreachable. |
| SplayTree.SplayTree.Splay | Year4/advanced-computer-architecture/SplayTrees/bounds-splay-tree.c:248-286 | Keeps the invariant, in-order sequence and count; afterwards the root is the key or its neighbour and the key is cached, also when the cached key allows the early return. |
| SplayTree.SplayTree.Lookup | Year4/advanced-computer-architecture/SplayTrees/bounds-splay-tree.c:393-400 | Returns the node of the key, now the root, exactly when the map has it; the tree is splayed around the key and the map is left alone. |
| SplayTree.SplayTree.Insert | Year4/advanced-computer-architecture/SplayTrees/bounds-splay-tree.c:308-353 | The map gets the key with the new value and nothing else; num_keys follows; the returned node is the root. |
| SplayTree.SplayTree.Remove | Year4/advanced-computer-architecture/SplayTrees/bounds-splay-tree.c:358-387 | The map loses the key and nothing else; num_keys follows. |
| SplayTree.SplayTree.Predecessor | Year4/advanced-computer-architecture/SplayTrees/bounds-splay-tree.c:407-429 | Returns the node with the greatest smaller key, or null exactly when there is none; the tree is splayed around the given key. |
| SplayTree.SplayTree.Successor | Year4/advanced-computer-architecture/SplayTrees/bounds-splay-tree.c:435-456 | Returns the node with the least greater key, or null exactly when there is none; the tree is splayed around the given key. |
| SplayTree.SplayTree.constructor | Year4/advanced-computer-architecture/SplayTrees/bounds-splay-tree.c:292-300 | An empty tree without a cached key. |
| SplayTree.SplayTree.Traverse | Year4/advanced-computer-architecture/SplayTrees/bounds-splay-tree.c:482-538 | The loop of the walk, from the root on. |
| SplayTree.SplayTree.RotateOnce | Year4/advanced-computer-architecture/SplayTrees/bounds-splay-tree.c:122-138 | In the heap: the links of the whole tree, with all that surrounds the rotation, are those of the rotated tree. |
| SplayTree.SplayTree.RotateTwice | Year4/advanced-computer-architecture/SplayTrees/bounds-splay-tree.c:140-184 | The same for the double rotation. |
| SplayCost.RotateCost | Year4/advanced-computer-architecture/SplayTrees/bounds-splay-tree.c:120-185 | A rotation of the helper, single or double, pays for its step out of the logarithms of the subtree sizes. |
| SplayCost.ClimbCost | Year4/advanced-computer-architecture/SplayTrees/bounds-splay-tree.c:68-185 | The whole way from the located node to the root costs what the tree loses in credit, and a logarithm. |
| SplayCost.SearchCost | Year4/advanced-computer-architecture/SplayTrees/bounds-splay-tree.c:247-286 | A search looks at 6 log n + 3 nodes, or at more that are paid for by a better tree. |
| SplayCost.PotentialBound | Year4/advanced-computer-architecture/SplayTrees/bounds-splay-tree.c:70-185 | No tree of n nodes has more credit than n log n. |
| SplayCost.SearchesAreLogarithmic | Year4/advanced-computer-architecture/SplayTrees/bounds-splay-tree.c:247-286 | From any tree of n nodes, m searches in a row look at no more than m (6 log n + 3) + 2 n log n nodes: logarithmic on the average. |
| ListSort.AscendingIsSorted | Year2/Pintos_Project/pintos_task0_sk4520/src/lib/kernel/list.c:339-350 | For a strict weak order, no element less than its neighbour means sorted throughout. |
| ListSort.StableSortUnique | Year2/Pintos_Project/pintos_task0_sk4520/src/lib/kernel/list.c:401-440 | Two sorted sequences with the same order within each class of equivalent elements are equal: sortedness and stability fix the result. |
| ListSort.MergeKeepsElements | Year2/Pintos_Project/pintos_task0_sk4520/src/lib/kernel/list.c:380-399 | Merging keeps all elements. |
| ListSort.MergeSorts | Year2/Pintos_Project/pintos_task0_sk4520/src/lib/kernel/list.c:380-399 | Merging sorted runs gives a sorted run. |
| ListSort.MergeIsStable | Year2/Pintos_Project/pintos_task0_sk4520/src/lib/kernel/list.c:380-399 | Equivalent elements keep their order, those of the first run first. |
| ListSort.PassHalvesRuns | Year2/Pintos_Project/pintos_task0_sk4520/src/lib/kernel/list.c:420-436 | A pass writes half as many runs as it reads, rounded up. |
| ListSort.PassProgress | Year2/Pintos_Project/pintos_task0_sk4520/src/lib/kernel/list.c:412-437 | The list after a pass has at most that many runs: the outer loop ends. |
| ListSort.LastPassSorts | Year2/Pintos_Project/pintos_task0_sk4520/src/lib/kernel/list.c:412-437 | A pass that writes at most one run leaves a sorted list. |
| ListSort.PassIsStable | Year2/Pintos_Project/pintos_task0_sk4520/src/lib/kernel/list.c:420-436 | A pass is a stable permutation. |
| ListSort.MergeOneAt | Year2/Pintos_Project/pintos_task0_sk4520/src/lib/kernel/list.c:446-459 | The walk of list_insert_ordered is the merge with a single element. |
| ListLinks.UnlinkedIsChain | Year2/Pintos_Project/pintos_task0_sk4520/src/lib/kernel/list.c:249-255 | Closing the gap around a segment leaves two well-formed chains; the segment's own links stay. |
| ListLinks.LinkedIsChain | Year2/Pintos_Project/pintos_task0_sk4520/src/lib/kernel/list.c:169-178 | Linking a loose segment in gives a well-formed chain. |
| ListLinks.SpliceIntoItselfBreaks | Year2/Pintos_Project/pintos_task0_sk4520/src/lib/kernel/list.c:184-204 | list_splice with before inside the moved segment leaves links that are no list containing the segment. |
| ListLinks.BackwardsTwice | Year2/Pintos_Project/pintos_task0_sk4520/src/lib/kernel/list.c:326-337 | Reversing twice gives the list back. |
| KernelList.List.Insert | Year2/Pintos_Project/pintos_task0_sk4520/src/lib/kernel/list.c:169-178 | The element is in the sequence just before the given place; prev and next agree everywhere. |
| KernelList.List.Remove | Year2/Pintos_Project/pintos_task0_sk4520/src/lib/kernel/list.c:249-255 | The element is out of the sequence; its own links still lead to its old neighbours. |
| KernelList.List.Splice | Year2/Pintos_Project/pintos_task0_sk4520/src/lib/kernel/list.c:184-204 | The segment moves within a list or between two lists, for every position where that makes sense. |
| KernelList.List.IsSorted | Year2/Pintos_Project/pintos_task0_sk4520/src/lib/kernel/list.c:342-350 | True exactly when no element in the range is less than the one before. |
| KernelList.List.FindEndOfRun | Year2/Pintos_Project/pintos_task0_sk4520/src/lib/kernel/list.c:358-372 | Returns the end of the maximal run without a lesser neighbour. |
| KernelList.List.InplaceMerge | Year2/Pintos_Project/pintos_task0_sk4520/src/lib/kernel/list.c:380-399 | Two adjacent runs become their stable merge in place; everything else stays. |
| KernelList.List.SortPass | Year2/Pintos_Project/pintos_task0_sk4520/src/lib/kernel/list.c:420-436 | One pass over the list is the pass of the specification, and counts its runs. |
| KernelList.List.Sort | Year2/Pintos_Project/pintos_task0_sk4520/src/lib/kernel/list.c:405-440 | Ends with a well-formed list of the same elements and sentinels that is sorted and a stable permutation of the input. |
| KernelList.List.InsertOrdered | Year2/Pintos_Project/pintos_task0_sk4520/src/lib/kernel/list.c:446-459 | The sequence is merged with the new element, which comes after its equals. |
| KernelList.List.Reverse | Year2/Pintos_Project/pintos_task0_sk4520/src/lib/kernel/list.c:326-337 | The sequence is reversed in place. |
| KernelList.List.PushFront | Year2/Pintos_Project/pintos_task0_sk4520/src/lib/kernel/list.c:209-212 | The element comes first. |
| KernelList.List.PushBack | Year2/Pintos_Project/pintos_task0_sk4520/src/lib/kernel/list.c:217-220 | The element comes last. |
| KernelList.List.PopFront | Year2/Pintos_Project/pintos_task0_sk4520/src/lib/kernel/list.c:260-265 | The first element is removed and returned. |
| KernelList.List.PopBack | Year2/Pintos_Project/pintos_task0_sk4520/src/lib/kernel/list.c:270-275 | The last element is removed and returned. |
| KernelList.List.constructor | Year2/Pintos_Project/pintos_task0_sk4520/src/lib/kernel/list.c:61-68 | An empty list: two sentinels that point at each other. |
| KernelList.List.Begin | Year2/Pintos_Project/pintos_task0_sk4520/src/lib/kernel/list.c:72-76 | The first element, or the tail of an empty list. |
| KernelList.List.Next | Year2/Pintos_Project/pintos_task0_sk4520/src/lib/kernel/list.c:82-86 | The element after, in the order of the sequence. |
| KernelList.List.Prev | Year2/Pintos_Project/pintos_task0_sk4520/src/lib/kernel/list.c:113-117 | The element before. |
| Scheduler.ScheduleKeeps | Year2/Pintos_Project/pintos_task0_sk4520/src/threads/thread.c:506-582 | schedule finds the first ready thread, or idle when none is ready, and restores the invariant that one thread runs and the ready list holds the ready ones. |
| Scheduler.UnblockKeeps | Year2/Pintos_Project/pintos_task0_sk4520/src/threads/thread.c:247-258 | Unblocking a blocked thread keeps the invariant. |
| Scheduler.BlockKeeps | Year2/Pintos_Project/pintos_task0_sk4520/src/threads/thread.c:229-236 | Blocking the running thread keeps it, once idle is known or another thread blocks. |
| Scheduler.YieldKeeps | Year2/Pintos_Project/pintos_task0_sk4520/src/threads/thread.c:317-330 | Yielding keeps it. |
| Scheduler.ExitKeeps | Year2/Pintos_Project/pintos_task0_sk4520/src/threads/thread.c:296-312 | Exiting keeps it. |
| Scheduler.DispatchedInOrder | Year2/Pintos_Project/pintos_task0_sk4520/src/threads/thread.c:506-512 | A thread at position k of the ready list is the (k+1)-th to be dispatched, however many others become ready. |
| Semaphores.ChildIsBlocked | Year2/Pintos_Project/pintos_task0_sk4520/src/threads/thread.c:173-220 | The new thread is blocked when thread_create unblocks it. |
| Semaphores.LaunchThreadKeeps | Year2/Pintos_Project/pintos_task0_sk4520/src/threads/thread.c:173-220 | The last part of thread_create keeps the invariant. |
| Semaphores.ExitThreadKeeps | Year2/Pintos_Project/pintos_task0_sk4520/src/threads/thread.c:296-312 | thread_exit does. |
| RunTheorems.ThreadsInOrder | Year2/Pintos_Project/pintos_task0_sk4520/src/threads/thread.c:229-330 | In every reachable state exactly one thread runs, the ready list holds exactly the ready threads but idle, once each, and no thread is on two lists. |
| RunTheorems.ReadyThreadsRunInTurn | Year2/Pintos_Project/pintos_task0_sk4520/src/threads/thread.c:506-512 | In every run a thread at position i of the ready list is dispatched after exactly i other dispatches. |
| KernelMonitor.Kernel.ThreadUnblock | Year2/Pintos_Project/pintos_task0_sk4520/src/threads/thread.c:247-258 | Puts the thread at the end of the ready list and makes it ready. |
| KernelMonitor.Kernel.NextThreadToRun | Year2/Pintos_Project/pintos_task0_sk4520/src/threads/thread.c:506-512 | Takes the first ready thread, or idle. |
| KernelMonitor.Kernel.Reschedule | Year2/Pintos_Project/pintos_task0_sk4520/src/threads/thread.c:532-582 | Switches to it, marks it running and starts a new time slice. |
| KernelMonitor.Kernel.ThreadBlock | Year2/Pintos_Project/pintos_task0_sk4520/src/threads/thread.c:229-236 | The state that the transition system says. |
| KernelMonitor.Kernel.ThreadYield | Year2/Pintos_Project/pintos_task0_sk4520/src/threads/thread.c:317-330 | The state that the transition system says. |
| KernelMonitor.Kernel.ThreadExit | Year2/Pintos_Project/pintos_task0_sk4520/src/threads/thread.c:296-312 | The state that the transition system says. |
| KernelMonitor.Kernel.constructor | Year2/Pintos_Project/pintos_task0_sk4520/src/threads/thread.c:106-118 | The state from which runs begin. |
| StepLaws.StepSchedules | Year2/Pintos_Project/pintos_task0_sk4520/src/threads/thread.c:229-582 | Every step: who joins the back of the ready list, whether the running thread gives up the processor, that its front (or idle) runs then, the time slice, and where all threads stand. |
| StepLaws.ExitLeaves | Year2/Pintos_Project/pintos_task0_sk4520/src/threads/thread.c:296-312 | A thread that exits runs no more, is on no list, and its page is free unless it is the initial thread's. |
| Progress.ReadyThreadsRunSoon | Year2/Pintos_Project/pintos_task0_sk4520/src/threads/thread.c:130-147 | In every run a thread at position i of the ready list gets the processor within i + 1 time slices of timer ticks, whatever the others do. |
| RunTheorems.RunGoesOn | Year2/Pintos_Project/pintos_task0_sk4520/src/threads/thread.c:173-330 | Every enabled step may come next in a run. |
| Semaphores.WaiterIsBlocked | Year2/Pintos_Project/pintos_task0_sk4520/src/threads/synch.c:109-121 | A thread on a wait list is blocked, so the assertion of thread_unblock holds in sema_up. |
| Semaphores.UpKeeps | Year2/Pintos_Project/pintos_task0_sk4520/src/threads/synch.c:109-121 | sema_up keeps the invariant of threads, wait lists and counts. |
| Semaphores.TestKeeps | Year2/Pintos_Project/pintos_task0_sk4520/src/threads/synch.c:61-76 | So does each round of the loop of sema_down. |
| Semaphores.OneListOnly | Year2/Pintos_Project/pintos_task0_sk4520/src/threads/synch.c:61-121 | A thread is on the ready list or on one wait list, never two: they share a list element. |
| Semaphores.NoWakeUpLost | Year2/Pintos_Project/pintos_task0_sk4520/src/threads/synch.c:61-121 | While the value is positive and threads wait, some woken thread will still test the value. |
| KernelRuns.InsideAlone | Year2/Pintos_Project/pintos_task0_sk4520/src/threads/synch.c:193-236 | A thread between acquire and release is there alone, and the value is 0. |
| KernelRuns.StepKeeps | Year2/Pintos_Project/pintos_task0_sk4520/src/threads/synch.c:61-236 | Each of the 23 kinds of step, in every interleaving, keeps the invariant of threads, semaphores, locks and sleepers. |
| RunTheorems.LocksExclude | Year2/Pintos_Project/pintos_task0_sk4520/src/threads/synch.c:193-236 | In every reachable state the threads inside a lock number exactly 1 minus its value, and the holder is the one inside. |
| RunTheorems.NoLostWakeUps | Year2/Pintos_Project/pintos_task0_sk4520/src/threads/synch.c:61-121 | In every reachable state value = initial + ups - completed downs; and while threads wait the value is at most the number of woken threads that have not tested again. |
| KernelMonitor.Kernel.SemaUp | Year2/Pintos_Project/pintos_task0_sk4520/src/threads/synch.c:109-121 | Unblocks the first waiter, if any, and increments: the step of the transition system. |
| KernelMonitor.Kernel.SemaTryDown | Year2/Pintos_Project/pintos_task0_sk4520/src/threads/synch.c:84-102 | Decrements exactly if the value is positive. |
| KernelMonitor.Kernel.SemaDownRound | Year2/Pintos_Project/pintos_task0_sk4520/src/threads/synch.c:61-76 | Decrements and goes on, or joins the wait list and blocks: the step of the transition system. |
| KernelMonitor.Kernel.LockSetHolder | Year2/Pintos_Project/pintos_task0_sk4520/src/threads/synch.c:193-201 | The end of lock_acquire, as a step. |
| KernelMonitor.Kernel.LockRelease | Year2/Pintos_Project/pintos_task0_sk4520/src/threads/synch.c:229-236 | The holder is cleared while the value is still 0. |
| KernelMonitor.Kernel.LockFinishRelease | Year2/Pintos_Project/pintos_task0_sk4520/src/threads/synch.c:229-236 | The sema_up of lock_release, as a step. |
| ConditionVariables.StepCounts | Year2/Pintos_Project/pintos_task0_sk4520/src/threads/synch.c:61-121 | A kernel step ups or downs a semaphore exactly if it is an up, or completes a down, of it. |
| ConditionVariables.ContinueEnabled | Year2/Pintos_Project/pintos_task0_sk4520/src/threads/synch.c:288-302 | In cond_wait the assertions of lock_release and lock_acquire hold, and the next section can always run. |
| ConditionVariables.OwnStage | Year2/Pintos_Project/pintos_task0_sk4520/src/threads/synch.c:288-302 | Each section of cond_wait takes the thread to the next, and the last one leaves it with the lock. |
| ConditionVariables.WaitKeeps | Year2/Pintos_Project/pintos_task0_sk4520/src/threads/synch.c:288-302 | Putting oneself on the list keeps the invariant of waiters and signals. |
| ConditionVariables.ContinueKeeps | Year2/Pintos_Project/pintos_task0_sk4520/src/threads/synch.c:288-302 | So do the other sections of cond_wait. |
| ConditionVariables.SignalKeeps | Year2/Pintos_Project/pintos_task0_sk4520/src/threads/synch.c:312-322 | So does cond_signal. |
| ConditionVariables.PerformKeeps | Year2/Pintos_Project/pintos_task0_sk4520/src/threads/synch.c:260-338 | So does every step of a program with condition variables, in every interleaving. |
| ConditionVariables.ListUnderLock | Year2/Pintos_Project/pintos_task0_sk4520/src/threads/synch.c:278-322 | Only the holder of the one lock that belongs to a condition changes its list of waiters. |
| ConditionVariables.WaitEnters | Year2/Pintos_Project/pintos_task0_sk4520/src/threads/synch.c:288-298 | cond_wait begins with a new semaphore of value 0 and the thread at the back of the list, the lock still held. |
| ConditionVariables.SignalWakes | Year2/Pintos_Project/pintos_task0_sk4520/src/threads/synch.c:312-322 | cond_signal takes the first waiter off the list and gives its semaphore the value 1; if it is blocked it joins the ready list. Without waiters nothing changes. |
| ConditionVariables.ContinueAdvances | Year2/Pintos_Project/pintos_task0_sk4520/src/threads/synch.c:288-302 | Every section takes the thread further in cond_wait, and the seventh out of it, unless its semaphore or the lock is not to be had. |
| ConditionVariables.CallsAreSteps | Year2/Pintos_Project/pintos_task0_sk4520/src/threads/synch.c:260-338 | Every run with condition variables is a run of the kernel that ends in the same state, so that all theorems on the kernel hold in it. |
| ConditionVariables.SignalledInOrder | Year2/Pintos_Project/pintos_task0_sk4520/src/threads/synch.c:288-322 | In every run signals go to the waiters in the order in which they came. |
| ConditionVariables.NobodyReturnsUnsignalled | Year2/Pintos_Project/pintos_task0_sk4520/src/threads/synch.c:288-322 | In every run a thread that has come out of the wait has been signalled. |
| ConditionVariables.NoSignalLost | Year2/Pintos_Project/pintos_task0_sk4520/src/threads/synch.c:288-322 | In every run a signalled thread is not left blocked: its semaphore has the value 1 until it comes out of the wait; a thread that is not signalled is on the list. |
| ConditionVariables.WaitReturnsLocked | Year2/Pintos_Project/pintos_task0_sk4520/src/threads/synch.c:288-302 | cond_wait returns with the lock held, to a thread that was signalled. |
| StepLaws.StepSemas | Year2/Pintos_Project/pintos_task0_sk4520/src/threads/synch.c:45-121 | Every step changes a semaphore's value, wait list and history by at most one up, one completed down and the running thread's wait, for exactly the operations that are such. |
| StepLaws.NewSemas | Year2/Pintos_Project/pintos_task0_sk4520/src/threads/synch.c:45-182 | New semaphores have the given value and no waiters; new locks are free. |
| Progress.WaitersWakeInTurn | Year2/Pintos_Project/pintos_task0_sk4520/src/threads/synch.c:61-121 | In every run a thread at position i of a wait list is still waiting, one place further on for each sema_up, until i others have been woken. |
| Progress.UpReadies | Year2/Pintos_Project/pintos_task0_sk4520/src/threads/synch.c:109-121 | sema_up puts the first waiter, and nobody else, at the back of the ready list. |
| Progress.LockSteps | Year2/Pintos_Project/pintos_task0_sk4520/src/threads/synch.c:193-236 | In every step of every thread: a thread gets inside a lock exactly by lock_acquire or lock_try_acquire when nobody is inside, and gets out exactly by the sema_up of lock_release. |
| Progress.KernelGoesOn | Year2/Pintos_Project/pintos_task0_sk4520/src/threads/synch.c:61-236 | In every reachable state the running thread has a step that it can take, and unless it is inside sema_down a timer interrupt may come. |
| ThreadLists.NodesApart | Year2/Pintos_Project/pintos_task0_sk4520/src/threads/synch.c:61-121 | No thread being on two lists, the ready list and a wait list have no list element in common. |
| ThreadLists.WakeFirst | Year2/Pintos_Project/pintos_task0_sk4520/src/threads/synch.c:109-121 | On the linked lists: the first waiter's one element moves to the end of the ready list; both lists stay whole and are those of the transition system. |
| ThreadLists.WaitAndSwitch | Year2/Pintos_Project/pintos_task0_sk4520/src/threads/synch.c:61-76 | On the linked lists: the running thread's element joins the wait list and the front of the ready list is taken off; the lists are those of the transition system. |
| ThreadLists.WaitAndWake | Year2/Pintos_Project/pintos_task0_sk4520/src/threads/synch.c:61-121 | From the booted kernel with one semaphore: the lists are made, the initial thread waits and is woken, and its one element goes from list to list. |
| ConditionVariables.CallsGoOn | Year2/Pintos_Project/pintos_task0_sk4520/src/threads/synch.c:260-338 | Every call that is allowed may come next in a run. |
| KernelRuns.SleepReturns | Year2/Pintos_Project/pintos_task0_sk4520/src/devices/timer.c:116-144 | A sleeper whose semaphore can be downed has reached its deadline. |
| KernelRuns.WakeSleeps | Year2/Pintos_Project/pintos_task0_sk4520/src/devices/timer.c:147-171 | The wake-up loop takes exactly those off the list who are due, and each of them has the value 1 in its semaphore then. |
| KernelRuns.InterruptSeesWholeList | Year2/Pintos_Project/pintos_task0_sk4520/src/devices/timer.c:116-171 | If the interrupt's try_down succeeds, no thread is between the two ends of an insertion. |
| KernelRuns.TickKeeps | Year2/Pintos_Project/pintos_task0_sk4520/src/devices/timer.c:260-265 | A timer interrupt in any state where it can come keeps the invariant. |
| RunTheorems.TickWakesAllExpired | Year2/Pintos_Project/pintos_task0_sk4520/src/devices/timer.c:147-171 | After a tick whose try_down succeeds no listed sleeper is due. |
| RunTheorems.SleepIsLongEnough | Year2/Pintos_Project/pintos_task0_sk4520/src/devices/timer.c:116-144 | In every run timer_sleep does not return before its n ticks have passed. |
| KernelMonitor.Kernel.LinkSleeper | Year2/Pintos_Project/pintos_task0_sk4520/src/devices/timer.c:116-144 | Initialises the sleeper's semaphore and inserts it by deadline, as a step. |
| KernelMonitor.Kernel.TryToWakeUpThreads | Year2/Pintos_Project/pintos_task0_sk4520/src/devices/timer.c:147-171 | Wakes those who are due exactly if the list's semaphore is free. |
| KernelMonitor.Kernel.TimerInterrupt | Year2/Pintos_Project/pintos_task0_sk4520/src/devices/timer.c:260-265 | Counts the tick, wakes sleepers and yields at the end of the time slice: the tick of the transition system. |
| SleepingThreads.WakeExpired | Year2/Pintos_Project/pintos_task0_sk4520/src/devices/timer.c:147-171 | On the linked list: removes exactly the elements at the front that are due, and wakes them in order. |
| SleepingThreads.RemoveAndGoOn | Year2/Pintos_Project/pintos_task0_sk4520/src/devices/timer.c:147-171 | Walking on from an element just removed reaches the rest of the list. |
| SleepingThreads.NobodyLateRemains | Year2/Pintos_Project/pintos_task0_sk4520/src/devices/timer.c:147-171 | On a list sorted by deadline nobody behind the place where the walk stops is due. |
| SleepingThreads.InsertedInOrder | Year2/Pintos_Project/pintos_task0_sk4520/src/devices/timer.c:173-187 | Inserting by has_less_sleep_time keeps the list sorted, behind equal deadlines. |
| StepLaws.WakeSchedules | Year2/Pintos_Project/pintos_task0_sk4520/src/devices/timer.c:147-171 | The wake-up loop puts exactly the due sleepers that are blocked on the ready list, in the order of their deadlines. |
| Progress.WokenCanGoOn | Year2/Pintos_Project/pintos_task0_sk4520/src/devices/timer.c:116-171 | In every reachable state a sleeper that is off the list has reached its deadline, finds the value 1 in its semaphore, and is ready or runs. |
| Progress.TickWakesAll | Year2/Pintos_Project/pintos_task0_sk4520/src/devices/timer.c:147-171 | After a tick that finds the list's semaphore free, no thread on the list whose deadline has come is blocked: each is ready or runs. |
| Progress.WokenReturns | Year2/Pintos_Project/pintos_task0_sk4520/src/devices/timer.c:116-144 | When a woken sleeper runs, its next step takes it out of timer_sleep. |
| Progress.StepSleepers | Year2/Pintos_Project/pintos_task0_sk4520/src/devices/timer.c:116-171 | The list of sleepers changes exactly by a thread that links itself in, and by the wake-up loop taking off those who are due. |
| Progress.SleepersInTurn | Year2/Pintos_Project/pintos_task0_sk4520/src/devices/timer.c:116-171 | In every step sleepers leave the front of the list only, and a new one comes behind all that have no later deadline: among equals, who went to sleep first is woken first. |
| Bitmaps.Bitmap.Mark | Year2/Pintos_Project/pintos_task0_sk4520/src/lib/kernel/bitmap.c:158-167 | Sets this bit of the packed words and no other. |
| Bitmaps.Bitmap.Reset | Year2/Pintos_Project/pintos_task0_sk4520/src/lib/kernel/bitmap.c:171-180 | Clears this bit and no other. |
| Bitmaps.Bitmap.Flip | Year2/Pintos_Project/pintos_task0_sk4520/src/lib/kernel/bitmap.c:186-195 | Changes this bit and no other. |
| Bitmaps.Bitmap.SetMultiple | Year2/Pintos_Project/pintos_task0_sk4520/src/lib/kernel/bitmap.c:219-229 | Fills the range and nothing else. |
| Bitmaps.Bitmap.Contains | Year2/Pintos_Project/pintos_task0_sk4520/src/lib/kernel/bitmap.c:252-264 | True exactly when some bit in the range has the value. |
| Bitmaps.Bitmap.Scan | Year2/Pintos_Project/pintos_task0_sk4520/src/lib/kernel/bitmap.c:297-311 | Returns the first group of the given length, or none exactly when there is none. |
| Bitmaps.FirstFitUnique | Year2/Pintos_Project/pintos_task0_sk4520/src/lib/kernel/bitmap.c:297-311 | There is one such answer only. |
| Bitmaps.Bitmap.ScanAndFlip | Year2/Pintos_Project/pintos_task0_sk4520/src/lib/kernel/bitmap.c:321-327 | The same, and flips exactly that group. |
| Bitmaps.Bitmap.constructor | Year2/Pintos_Project/pintos_task0_sk4520/src/lib/kernel/bitmap.c:79-94 | As many bits as asked for, all false. |
| Bitmaps.Bitmap.Set | Year2/Pintos_Project/pintos_task0_sk4520/src/lib/kernel/bitmap.c:146-154 | This bit gets the value and no other changes. |
| Bitmaps.Bitmap.Test | Year2/Pintos_Project/pintos_task0_sk4520/src/lib/kernel/bitmap.c:199-204 | The value of the bit. |
| Palloc.PageAllocator.FreePages | Year2/Pintos_Project/pintos_task0_sk4520/src/threads/palloc.c:118-142 | Finds the pool by the address and makes exactly these pages free. |
| Palloc.PageAllocator.constructor | Year2/Pintos_Project/pintos_task0_sk4520/src/threads/palloc.c:46-62 | At most half of the pages, and at most the limit, are the user pool; each pool lies behind the pages of its bitmap and is free. |
| Palloc.PageAllocator.GetPages | Year2/Pintos_Project/pintos_task0_sk4520/src/threads/palloc.c:71-101 | From either pool: hands out the first free group of pages, which become used; fails exactly when there is none or no pages are asked for. |
| Palloc.PageAllocator.GetKernelPages | Year2/Pintos_Project/pintos_task0_sk4520/src/threads/palloc.c:71-101 | The same from the kernel pool. |
| Palloc.BitmapPagesAreLeast | Year2/Pintos_Project/pintos_task0_sk4520/src/threads/palloc.c:154-165 | A pool gives up the least number of pages that holds its bitmap. |
| Palloc.UserPagesAreMost | Year2/Pintos_Project/pintos_task0_sk4520/src/threads/palloc.c:46-62 | The user pool is the largest that is neither above half of the pages nor above the limit. |
| Malloc.BlockOfArena | Year2/Pintos_Project/pintos_task0_sk4520/src/threads/malloc.c:268-294 | block_to_arena and the block index undo arena_to_block. |
| Malloc.AddressOfBlock | Year2/Pintos_Project/pintos_task0_sk4520/src/threads/malloc.c:268-294 | And the other way round for aligned addresses. |
| Malloc.LiveBlocksApart | Year2/Pintos_Project/pintos_task0_sk4520/src/threads/malloc.c:90-154 | Blocks handed out are pairwise disjoint. |
| Malloc.InsidePages | Year2/Pintos_Project/pintos_task0_sk4520/src/threads/malloc.c:90-154 | A block lies inside its arena's pages, behind the header. |
| Malloc.TookKeeps | Year2/Pintos_Project/pintos_task0_sk4520/src/threads/malloc.c:148-151 | Handing out the first free block keeps the invariant (free counts, free lists, disjointness); just this block becomes live. |
| Malloc.GaveKeeps | Year2/Pintos_Project/pintos_task0_sk4520/src/threads/malloc.c:238-242 | Putting a block back does; just this block stops being live. |
| Malloc.DroppedKeeps | Year2/Pintos_Project/pintos_task0_sk4520/src/threads/malloc.c:241-253 | Giving up an arena with all blocks free does; no live block was on it. |
| Malloc.StillInUse | Year2/Pintos_Project/pintos_task0_sk4520/src/threads/malloc.c:219-264 | An arena that is not given up still has a live block. |
| Malloc.PagesSufficeIff | Year2/Pintos_Project/pintos_task0_sk4520/src/threads/malloc.c:107-112 | The pages asked for a big request suffice exactly when adding the header does not wrap in 32 bits; otherwise one page is asked for. |
| Malloc.HugeRequestGetsOnePage | Year2/Pintos_Project/pintos_task0_sk4520/src/threads/malloc.c:107-112 | A request for which it wraps. |
| Malloc.Allocator.constructor | Year2/Pintos_Project/pintos_task0_sk4520/src/threads/malloc.c:72-85 | The descriptors are the powers of two from 16 below half a page, and nothing is handed out. |
| Malloc.Allocator.FindDesc | Year2/Pintos_Project/pintos_task0_sk4520/src/threads/malloc.c:100-105 | Finds the smallest block size that satisfies the request, and none exactly above a quarter page. |
| Malloc.Allocator.Malloc | Year2/Pintos_Project/pintos_task0_sk4520/src/threads/malloc.c:90-154 | Keeps the invariant; returns a block that was not live, of the smallest sufficient descriptor or with pages of its own, and all others stay. It takes a page exactly if the free list is empty, and the pages that other parts of the kernel use stay the same. Null only for size 0 or when neither a block nor enough pages are left; then nothing changes. |
| Malloc.Allocator.MallocBig | Year2/Pintos_Project/pintos_task0_sk4520/src/threads/malloc.c:105-120 | The same for requests that get pages of their own. |
| Malloc.Allocator.MallocBlock | Year2/Pintos_Project/pintos_task0_sk4520/src/threads/malloc.c:122-153 | The same for requests served from an arena, a new one if the free list is empty. |
| Malloc.Allocator.Free | Year2/Pintos_Project/pintos_task0_sk4520/src/threads/malloc.c:219-264 | Just this block stops being live; its arena's pages go back exactly when no block of the arena is live any more; the pages of others stay. |
| Malloc.Allocator.EmptyFreeList | Year2/Pintos_Project/pintos_task0_sk4520/src/threads/malloc.c:244-251 | Takes exactly the blocks of the arena off the free list. |
| Malloc.Allocator.FillFreeList | Year2/Pintos_Project/pintos_task0_sk4520/src/threads/malloc.c:137-145 | Puts all blocks of the new arena on the free list. |
| Malloc.Allocator.TakeFirst | Year2/Pintos_Project/pintos_task0_sk4520/src/threads/malloc.c:148-151 | The first block of the free list becomes the one live block more. |
| Malloc.Allocator.AddArena | Year2/Pintos_Project/pintos_task0_sk4520/src/threads/malloc.c:125-146 | A page that was free becomes an arena whose blocks are all free, and no other page is taken; or there is no page, and nothing changes. |
| Malloc.Allocator.MallocAndFree | Year2/Pintos_Project/pintos_task0_sk4520/src/threads/malloc.c:90-264 | free undoes malloc: the same blocks are handed out, the same arenas are there and the same pages are used as before. |
| Malloc.ArenaInUse | Year2/Pintos_Project/pintos_task0_sk4520/src/threads/malloc.c:219-264 | Between calls every arena has a block that is handed out. |
| Malloc.Allocator.FreeBig | Year2/Pintos_Project/pintos_task0_sk4520/src/threads/malloc.c:257-262 | The block and all its pages are given up. |
| Malloc.Allocator.FreeBlock | Year2/Pintos_Project/pintos_task0_sk4520/src/threads/malloc.c:227-256 | The block is given up, and the page exactly if no block on it is live any more. |
| Malloc.ArenaIsFull | Year2/Pintos_Project/pintos_task0_sk4520/src/threads/malloc.c:71-83 | An arena is divided into as many blocks as fit on its page behind the header. |
| InodeData.NextChunk | Year2/Pintos_Project/pintos_task0_sk4520/src/filesys/inode.c:211-224 | Each chunk lies in one sector of the file, at the right place, and stops at the end of the sector or of the request clipped to the file. |
| InodeData.WriteChunk | Year2/Pintos_Project/pintos_task0_sk4520/src/filesys/inode.c:282-306 | Whole sectors and sectors merged through the bounce buffer both come down to overwriting these bytes of the disk. |
| InodeData.ChunkOverwrites | Year2/Pintos_Project/pintos_task0_sk4520/src/filesys/inode.c:282-306 | Rewriting one sector overwrites a range of the flat disk. |
| InodeData.WriteUpdatesFile | Year2/Pintos_Project/pintos_task0_sk4520/src/filesys/inode.c:258-318 | Such a write is a slice update of the file, and reading back gives what was written. |
| InodeData.WriteKeepsOtherFiles | Year2/Pintos_Project/pintos_task0_sk4520/src/filesys/inode.c:258-318 | Files in other sectors do not change. |
| FileSystem.CloseKeeps | Year2/Pintos_Project/pintos_task0_sk4520/src/filesys/inode.c:164-186 | Every close takes away one opener; a removed inode's sectors are freed by its last close and by no other. |
| FileSystemVolume.Volume.OpenSector | Year2/Pintos_Project/pintos_task0_sk4520/src/filesys/inode.c:112-142 | The new state is that of the transition system; fails exactly without memory for an inode that was not open. |
| FileSystemVolume.Volume.CloseInode | Year2/Pintos_Project/pintos_task0_sk4520/src/filesys/inode.c:164-186 | The new state is that of the transition system, and the sectors released were in use. |
| InodeData.Bounce | Year2/Pintos_Project/pintos_task0_sk4520/src/filesys/inode.c:289-308 | What the bounce buffer holds in the end is the sector with the chunk overwritten. |
| InodeData.ReadAt | Year2/Pintos_Project/pintos_task0_sk4520/src/filesys/inode.c:201-250 | Reads the slice of the file's bytes, clipped at the file length; without memory for the bounce buffer, exactly the whole sectors up to the first partial one; the rest of the buffer stays. |
| InodeData.WriteAt | Year2/Pintos_Project/pintos_task0_sk4520/src/filesys/inode.c:258-318 | Overwrites exactly the bytes of the disk at the file's place: the clipped request, or without memory exactly its leading whole sectors; nothing while writing is denied. |
| FileSystem.SlotNeedsMemory | Year2/Pintos_Project/pintos_task0_sk4520/src/filesys/inode.c:222-234 | A directory slot is read or written entirely if there is a bounce buffer and the file reaches that far, and not at all otherwise. |
| FileSystem.StepKeeps | Year2/Pintos_Project/pintos_task0_sk4520/src/filesys/inode.c:73-195 | Every operation, with every outcome of its allocations, keeps the invariant of ownership. |
| FileSystem.StepTimes | Year2/Pintos_Project/pintos_task0_sk4520/src/filesys/inode.c:112-186 | Every step changes the number of openers of an inode exactly by opening or closing it, and marks it for removal exactly by removing its name. |
| FileSystem.NoSectorOwnedTwice | Year2/Pintos_Project/pintos_task0_sk4520/src/filesys/inode.c:73-195 | After any run from a formatted device, whatever allocations fail, no sector belongs to two live inodes and all owned sectors are marked. |
| FileSystem.OpenInodeKeepsSectors | Year2/Pintos_Project/pintos_task0_sk4520/src/filesys/inode.c:112-195 | An open inode keeps its sectors through every step but its last close, whatever allocations fail. |
| FileSystem.InodeCreateOwns | Year2/Pintos_Project/pintos_task0_sk4520/src/filesys/inode.c:73-106 | A new inode gets only sectors nobody had. |
| FileSystemVolume.Volume.CreateInode | Year2/Pintos_Project/pintos_task0_sk4520/src/filesys/inode.c:73-106 | The new state is that of the transition system. |
| InodeData.SectorsAreLeast | Year2/Pintos_Project/pintos_task0_sk4520/src/filesys/inode.c:23-29 | A file gets the least number of sectors that holds it. |
| InodeData.ClippedIsMost | Year2/Pintos_Project/pintos_task0_sk4520/src/filesys/inode.c:201-250 | A read or write goes as far as asked, or to the end of the file. |
| InodeData.WholeIsMost | Year2/Pintos_Project/pintos_task0_sk4520/src/filesys/inode.c:216-237 | Without memory for the bounce buffer it goes just as far as whole sectors from the start of one do. |
| InodeData.ClearFile | Year2/Pintos_Project/pintos_task0_sk4520/src/filesys/inode.c:92-103 | A new file consists of zeros, and no other sector of the disk changes. |
| FileSystem.UnnamedKeeps | Year2/Pintos_Project/pintos_task0_sk4520/src/filesys/directory.c:185-216 | Removing a name whose inode is open keeps the inode and its sectors. |
| FileSystem.LookupIs | Year2/Pintos_Project/pintos_task0_sk4520/src/filesys/directory.c:92-112 | While names are different, lookup finds the only slot of a name: it agrees with the map. |
| FileSystem.LookupSeen | Year2/Pintos_Project/pintos_task0_sk4520/src/filesys/directory.c:92-112 | A lookup that runs out of memory finds a name exactly if its first slot was among those it could read. |
| FileSystem.StopIs | Year2/Pintos_Project/pintos_task0_sk4520/src/filesys/directory.c:159-169 | The search for a free slot stops at the first one, or at an earlier slot that it cannot read, or at the end. |
| FileSystem.AddSucceedsIff | Year2/Pintos_Project/pintos_task0_sk4520/src/filesys/directory.c:142-179 | dir_add succeeds exactly when the name is valid, lookup does not get to see it, the search does not get to the end, and the slot can be written; it has then written that slot only. |
| FileSystem.AddUpdatesMapIff | Year2/Pintos_Project/pintos_task0_sk4520/src/filesys/directory.c:142-179 | dir_add adds just its name to the map, with all names different, exactly when the name is valid and not in use, the search gets to a free slot, and the slot can be written. |
| FileSystem.AddDoublesIff | Year2/Pintos_Project/pintos_task0_sk4520/src/filesys/directory.c:155-175 | dir_add puts a name in twice exactly when lookup cannot read as far as the name and the search does not stop at its slot. |
| FileSystem.AddOverwritesIff | Year2/Pintos_Project/pintos_task0_sk4520/src/filesys/directory.c:159-175 | dir_add overwrites another file's slot exactly when the search cannot read a slot in use before the first free one. |
| FileSystem.AddCanDouble | Year2/Pintos_Project/pintos_task0_sk4520/src/filesys/directory.c:155-175 | The directory of that run, and a failed read for which the name is in it twice. |
| FileSystem.AddCanOverwrite | Year2/Pintos_Project/pintos_task0_sk4520/src/filesys/directory.c:159-175 | The directory of that run, and a failed read for which a file loses its name. |
| FileSystem.RemoveUpdatesMap | Year2/Pintos_Project/pintos_task0_sk4520/src/filesys/directory.c:185-216 | Freeing the slot of a name takes just this name out of the map. |
| FileSystem.RemoveUpdatesMapIff | Year2/Pintos_Project/pintos_task0_sk4520/src/filesys/directory.c:185-216 | While names are different, the map loses just this name exactly when it is in use, lookup reads as far as it, the inode can be opened and the slot can be written. |
| FileSystem.OpenThenClose | Year2/Pintos_Project/pintos_task0_sk4520/src/filesys/directory.c:199-215 | When the slot cannot be written, opening and closing the inode leaves the state as it was. |
| FileSystemVolume.Volume.Find | Year2/Pintos_Project/pintos_task0_sk4520/src/filesys/directory.c:92-112 | The first slot in use with the name among those that can be read. |
| FileSystemVolume.Volume.AddEntry | Year2/Pintos_Project/pintos_task0_sk4520/src/filesys/directory.c:142-179 | The entries of the transition system, or a failure that leaves them alone. |
| FileSystemVolume.Volume.ReadDir | Year2/Pintos_Project/pintos_task0_sk4520/src/filesys/directory.c:222-236 | The next name in use, with no slot in use skipped; none exactly when no slot from there on that can be read is in use. |
| FileSystem.FormatInv | Year2/Pintos_Project/pintos_task0_sk4520/src/filesys/filesys.c:95-103 | A formatted device satisfies the invariant and has no names. |
| FileSystem.CreateKeeps | Year2/Pintos_Project/pintos_task0_sk4520/src/filesys/filesys.c:46-59 | Keeps the invariant in every case; succeeds exactly when the sectors are found and dir_add succeeds; says which slot is written, which inode loses its name by that, and what stays marked after a failure. |
| FileSystem.CreateUpdatesMapIff | Year2/Pintos_Project/pintos_task0_sk4520/src/filesys/filesys.c:46-59 | Adds just its name to the map exactly when it gets to dir_add with a fresh valid name, a free slot in reach, and memory to write it. |
| FileSystem.CreateLeaksIff | Year2/Pintos_Project/pintos_task0_sk4520/src/filesys/filesys.c:46-59 | Leaves sectors marked without an owner exactly when it gets to dir_add with a file that has data, and dir_add fails. |
| FileSystem.CreateCanLeak | Year2/Pintos_Project/pintos_task0_sk4520/src/filesys/filesys.c:46-59 | A run on a device of seven sectors: creating a file, and its name again with one byte, fails with all the memory there is and leaves a sector marked that no live inode has. |
| FileSystem.OpenByNameKeeps | Year2/Pintos_Project/pintos_task0_sk4520/src/filesys/filesys.c:67-77 | Gives the inode that the map has for the name one opener more, exactly when lookup reads as far as the name and the inode can be opened; changes nothing else. |
| FileSystem.RemoveKeeps | Year2/Pintos_Project/pintos_task0_sk4520/src/filesys/filesys.c:84-91 | Keeps the invariant; succeeds exactly under its guard, and changes nothing otherwise. Then the first slot with the name is free; if nobody has the inode open its sectors are free and it is live no more, else it is marked for removal with as many openers as before. |
| FileSystem.NamesKeptIff | Year2/Pintos_Project/pintos_task0_sk4520/src/filesys/filesys.c:46-91 | A step keeps the names different exactly when it is not a create that puts a name in twice. |
| FileSystem.NamesUnique | Year2/Pintos_Project/pintos_task0_sk4520/src/filesys/filesys.c:46-91 | In every run without such a step names are different, and lookup agrees with the map. |
| FileSystem.EnoughMemoryKeepsNames | Year2/Pintos_Project/pintos_task0_sk4520/src/filesys/filesys.c:46-91 | As long as lookup in dir_add can read every slot, names are different in every reachable state. |
| FileSystem.AccountedKeptIff | Year2/Pintos_Project/pintos_task0_sk4520/src/filesys/filesys.c:46-91 | A step from a state in which every marked sector belongs to a live inode leads to such a state exactly if it is not a filesys_create that leaves data sectors behind or overwrites another file's slot. |
| FileSystem.NothingLost | Year2/Pintos_Project/pintos_task0_sk4520/src/filesys/filesys.c:46-91 | After every run without such a step the free map marks exactly the sectors of the system's inodes, of named ones and of open ones: removed files give theirs back. |
| FileSystem.FormatSucceedsIff | Year2/Pintos_Project/pintos_task0_sk4520/src/filesys/filesys.c:95-103 | Formatting succeeds exactly when the two inodes, the free map and the directory fit on the device. |
| FileSystemVolume.Volume.CreateFile | Year2/Pintos_Project/pintos_task0_sk4520/src/filesys/filesys.c:46-59 | State and result of the transition system, through all its failures and roll-backs. |
| FileSystemVolume.Volume.OpenFile | Year2/Pintos_Project/pintos_task0_sk4520/src/filesys/filesys.c:67-77 | State and result of the transition system. |
| FileSystemVolume.Volume.RemoveFile | Year2/Pintos_Project/pintos_task0_sk4520/src/filesys/filesys.c:84-91 | State and result of the transition system, also when the slot cannot be written. |
| FileSystemVolume.Volume.FreeMapRelease | Year2/Pintos_Project/pintos_task0_sk4520/src/filesys/free-map.c:45-50 | Clears these sectors, which were in use. |
| FileSystemVolume.Volume.FreeMapAllocate | Year2/Pintos_Project/pintos_task0_sk4520/src/filesys/free-map.c:28-41 | Marks the first free group; nothing when there is none, or when the file cannot be written and the group is given back. |
| HashTable.PowerOf2Test | Year2/Pintos_Project/pintos_task0_sk4520/src/lib/kernel/hash.c:330-340 | x != 0 and x & (x - 1) == 0 holds exactly for the powers of two. |
| HashTable.NotYetPower | Year2/Pintos_Project/pintos_task0_sk4520/src/lib/kernel/hash.c:330-340 | Turning off the lowest bit of another number keeps the highest. |
| HashTable.PowerBelow | Year2/Pintos_Project/pintos_task0_sk4520/src/lib/kernel/hash.c:368-372 | The loop ends at the greatest power of two that is not above n. |
| HashTable.MaskIsRemainder | Year2/Pintos_Project/pintos_task0_sk4520/src/lib/kernel/hash.c:306-310 | Masking with a power of two minus one is the remainder. |
| HashTable.PlacedHasNoTwins | Year2/Pintos_Project/pintos_task0_sk4520/src/lib/kernel/hash.c:306-326 | With every element in the bucket of its hash, and no equals in a bucket, no element is in the table twice. |
| HashTable.MoveAllPlaced | Year2/Pintos_Project/pintos_task0_sk4520/src/lib/kernel/hash.c:394-410 | Rehashing loses and doubles nothing and puts each element in its new bucket. |
| HashTable.Table.FindBucket | Year2/Pintos_Project/pintos_task0_sk4520/src/lib/kernel/hash.c:306-310 | The bucket is the hash value modulo the number of buckets. |
| HashTable.Table.Find | Year2/Pintos_Project/pintos_task0_sk4520/src/lib/kernel/hash.c:132-135 | Finds an equal element exactly when the table has one. |
| HashTable.Table.Insert | Year2/Pintos_Project/pintos_task0_sk4520/src/lib/kernel/hash.c:99-110 | Adds the element, or returns the equal one and changes nothing; also when rehash finds no memory. With memory the number of buckets suits the elements afterwards. |
| HashTable.Table.Replace | Year2/Pintos_Project/pintos_task0_sk4520/src/lib/kernel/hash.c:115-127 | Puts the element in place of an equal one, which it returns; with memory the number of buckets suits the elements. |
| HashTable.Table.Delete | Year2/Pintos_Project/pintos_task0_sk4520/src/lib/kernel/hash.c:145-154 | Removes and returns an equal element, or finds none and changes nothing; with memory the number of buckets suits the elements. |
| HashTable.Table.Rehash | Year2/Pintos_Project/pintos_task0_sk4520/src/lib/kernel/hash.c:352-413 | Same elements; with memory from 2 to just under 4 elements a bucket, or 4 buckets for fewer than 8 elements; without memory the same buckets. |
| HashTable.FirstBeforeAll | Year2/Pintos_Project/pintos_task0_sk4520/src/lib/kernel/hash.c:200-208 | At the start of an iteration all elements are to come. |
| HashTable.Next | Year2/Pintos_Project/pintos_task0_sk4520/src/lib/kernel/hash.c:219-235 | Each call yields the first element to come, and null exactly when none is: each element once. |
| HashTable.Table.constructor | Year2/Pintos_Project/pintos_task0_sk4520/src/lib/kernel/hash.c:25-42 | An empty table with four buckets. |
| HashTable.Table.FindElem | Year2/Pintos_Project/pintos_task0_sk4520/src/lib/kernel/hash.c:315-326 | The first equal element of the bucket. |
| HashTable.Table.InsertElem | Year2/Pintos_Project/pintos_task0_sk4520/src/lib/kernel/hash.c:417-421 | The element is in the table once more, in its bucket. |
| HashTable.Table.RemoveElem | Year2/Pintos_Project/pintos_task0_sk4520/src/lib/kernel/hash.c:425-429 | Just this element is out of the table. |
| HashTable.Table.Redistribute | Year2/Pintos_Project/pintos_task0_sk4520/src/lib/kernel/hash.c:378-412 | The same elements in the new number of buckets. |
| MatrixMultiply.MM1 | Year4/advanced-computer-architecture/MM/MM1.c:69-81 | Each C[i][j] gets the products for k = 0, 1, ... added in that order; nothing is assumed about add and multiply. |
| MatrixMultiply.DotIsFold | Year4/advanced-computer-architecture/MM/MM1.c:69-81 | An element is the fold of the list of its row's and column's products, all of them in order. |
| MatrixMultiply.MM2 | Year4/advanced-computer-architecture/MM/MM2.c:69-81 | The same result as mm1, element by element. |
| MatrixMultiply.MM3 | Year4/advanced-computer-architecture/MM/MM3.c:70-89 | The same result for every block size that divides the matrix size, and with no rounding differences. |
| MatrixMultiply.TileColumns | Year4/advanced-computer-architecture/MM/MM3.c:78-88 | One range of k for all columns, tile by tile. |
| MatrixMultiply.Tile | Year4/advanced-computer-architecture/MM/MM3.c:79-87 | One tile. |
| MatrixMultiply.DotJoins | Year4/advanced-computer-architecture/MM/MM3.c:77-88 | Adding two neighbouring ranges of products one after the other adds them in the original order. |
| MatrixMultiply.TilesFitIff | Year4/advanced-computer-architecture/MM/MM3.c:14-17 | With min defined away the tiles stay inside the matrix exactly when the block size divides its size. |
| HeapSort.SiftDownOnce | Year2/Pintos_Project/pintos_task0_sk4520/src/lib/stdlib.c:96-123 | Swapping with the greater child moves the only violation of the heap order down. |
| HeapSort.Heapify | Year2/Pintos_Project/pintos_task0_sk4520/src/lib/stdlib.c:96-123 | The heap that began behind i begins at i; the elements of the heap are kept and the rest is untouched. |
| HeapSort.RootIsGreatest | Year2/Pintos_Project/pintos_task0_sk4520/src/lib/stdlib.c:144-151 | No element of a heap is greater than its root. |
| HeapSort.RootInPlace | Year2/Pintos_Project/pintos_task0_sk4520/src/lib/stdlib.c:144-151 | Swapping the root with the last heap element extends the sorted part. |
| HeapSort.Sort | Year2/Pintos_Project/pintos_task0_sk4520/src/lib/stdlib.c:131-152 | For every total preorder the array ends sorted and a permutation of what it was. |
| HeapSort.BinarySearch | Year2/Pintos_Project/pintos_task0_sk4520/src/lib/stdlib.c:184-207 | On a sorted array returns a matching element exactly when there is one. |
| HeapSort.DoSwap | Year2/Pintos_Project/pintos_task0_sk4520/src/lib/stdlib.c:66-79 | The two elements change places. |
| HeapSort.PutRoot | Year2/Pintos_Project/pintos_task0_sk4520/src/lib/stdlib.c:144-151 | One round of the second loop: the heap loses its greatest element to the sorted part. |
| Ustar.FormatOctal | Year2/Pintos_Project/pintos_task0_sk4520/src/lib/stdio.c:470-547 | Prints the octal digits padded with zeros to the width; no number that fits the width comes out longer. |
| Ustar.ValueOfOctal | Year2/Pintos_Project/pintos_task0_sk4520/src/lib/stdio.c:496-525 | The digits printed stand for the number. |
| Ustar.ParseOctalField | Year2/Pintos_Project/pintos_task0_sk4520/src/lib/ustar.c:119-162 | Reads digits up to a space or null byte inside the field, and rejects exactly empty or unterminated fields, other characters and numbers beyond 32 bits. |
| Ustar.PrintedIsRead | Year2/Pintos_Project/pintos_task0_sk4520/src/lib/ustar.c:119-162 | Reading a printed field gives the number. |
| Ustar.StripAntisocialPrefixes | Year2/Pintos_Project/pintos_task0_sk4520/src/lib/ustar.c:66-73 | Removes prefixes until the name is clean. |
| Ustar.StrippedIsClean | Year2/Pintos_Project/pintos_task0_sk4520/src/lib/ustar.c:56-73 | The result is not empty, does not start with /, ./ or ../, is not .., is a tail of the name or ".", and stripping it again changes nothing. |
| Ustar.StripKeepsIff | Year2/Pintos_Project/pintos_task0_sk4520/src/lib/ustar.c:56-73 | A name is kept exactly when it is clean already. |
| Ustar.ChecksumIgnoresItself | Year2/Pintos_Project/pintos_task0_sk4520/src/lib/ustar.c:36-54 | The checksum does not depend on its own field. |
| Ustar.CalculateChksum | Year2/Pintos_Project/pintos_task0_sk4520/src/lib/ustar.c:36-54 | The sum of all bytes with spaces for the checksum field; it cannot overflow. |
| Ustar.HeaderUnique | Year2/Pintos_Project/pintos_task0_sk4520/src/lib/ustar.c:83-118 | The fields determine every byte of the header. |
| Ustar.MakeHeader | Year2/Pintos_Project/pintos_task0_sk4520/src/lib/ustar.c:83-118 | Writes all fields and the checksum; fails, leaving the buffer alone, exactly when more than 99 characters are left of the name. |
| Ustar.ParseHeader | Year2/Pintos_Project/pintos_task0_sk4520/src/lib/ustar.c:182-227 | The first failing test decides; otherwise the stripped name, type and size. |
| Ustar.RoundTrip | Year2/Pintos_Project/pintos_task0_sk4520/src/lib/ustar.c:83-227 | Parsing a header just made gives the stripped name, the type and the size (0 for directories); a negative file size is rejected as too large. |
| Ustar.DamageIsFound | Year2/Pintos_Project/pintos_task0_sk4520/src/lib/ustar.c:182-227 | Changing any one byte outside the checksum field of an accepted header makes it rejected. |
| Ustar.FillFields | Year2/Pintos_Project/pintos_task0_sk4520/src/lib/ustar.c:99-113 | All fields but the checksum. |
| Ustar.IsAllZeros | Year2/Pintos_Project/pintos_task0_sk4520/src/lib/ustar.c:166-173 | True exactly when every byte is zero. |
| Ustar.HeaderSpelled | Year2/Pintos_Project/pintos_task0_sk4520/src/lib/ustar.c:83-118 | The constant fields as the ustar format spells them: modes 0000644 and 0000755, types 0 and 5, ustar and 00, and the rest. |
| Ustar.AcceptedIff | Year2/Pintos_Project/pintos_task0_sk4520/src/lib/ustar.c:182-227 | Exactly which blocks are taken for a file or directory, and which for the end of the archive. |
| Ustar.ChecksumOfZeros | Year2/Pintos_Project/pintos_task0_sk4520/src/lib/ustar.c:36-54 | The checksum of a header of zeros is that of eight spaces. |
| Ustar.OctalFieldIff | Year2/Pintos_Project/pintos_task0_sk4520/src/lib/ustar.c:120-171 | A field has a value exactly if it starts with octal digits that a space or null byte ends, and the value fits in 32 bits. |
| Ustar.StripsPrefixes | Year2/Pintos_Project/pintos_task0_sk4520/src/lib/ustar.c:56-74 | Any slashes and steps to this or the parent directory ahead of a name are stripped, and nothing else. |
| ArmBranch.AssembleBranch | Year1/ARM_Assembler_Emulator_Project/arm11_48/src/assembler/branch/branch.c:111-137 | Emits the bytes of the branch word for condition and offset, least significant first. |
| ArmBranch.WordParts | Year1/ARM_Assembler_Emulator_Project/arm11_48/src/assembler/branch/branch.c:75-96 | The offset fills the low 24 bits; what does not fit is mixed into condition and opcode. |
| ArmBranch.BranchStaysBranch | Year1/ARM_Assembler_Emulator_Project/arm11_48/src/assembler/branch/branch.c:111-137 | An offset that fits leaves condition and opcode intact. |
| ArmBranch.StaysBranchIff | Year1/ARM_Assembler_Emulator_Project/arm11_48/src/assembler/branch/branch.c:75-96 | For every 32-bit offset the instruction is still a branch exactly if bit 28 of the offset, with 2^25 added to one that goes back, is clear; 2^28 and the first offset out of reach backwards give another instruction, 2^29 does not. |
| ArmBranch.NearestUnreachable | Year1/ARM_Assembler_Emulator_Project/arm11_48/src/assembler/branch/branch.c:75-96 | The smallest forward offset there is no room for, 2^25, makes the branch go back by 2^25. |
| ArmBranch.BranchIsEncoded | Year1/ARM_Assembler_Emulator_Project/arm11_48/src/assembler/branch/branch.c:75-96 | For a reachable offset the word is the condition, 101, a clear link bit and the offset in words, as the ARM architecture has it. |
| ArmBranch.BranchRoundTripIff | Year1/ARM_Assembler_Emulator_Project/arm11_48/src/emulator/branch/branch.c:12-39 | Decoding and sign-extending gives the assembled offset exactly when it is a multiple of 4 from -2^25 to below 2^25. |
| ArmPipeline.CycleIsStepIff | Year1/ARM_Assembler_Emulator_Project/arm11_48/src/emulate.c:114-156 | One turn of the loop equals one instruction of the interpreter, and leaves the pipeline full, exactly when r15 is written by branches only and isBranch is false after a failed condition; also for self-modifying code. |
| ArmPipeline.StartIsFull | Year1/ARM_Assembler_Emulator_Project/arm11_48/src/emulate.c:105-112 | The start-up code fills the pipeline. |
| ArmPipeline.RunIsSteps | Year1/ARM_Assembler_Emulator_Project/arm11_48/src/emulate.c:114-156 | Whole runs agree with the interpreter, to the same halt. |
| ArmPipeline.ProgramRuns | Year1/ARM_Assembler_Emulator_Project/arm11_48/src/emulate.c:105-156 | The same from the initial state. |
| ArmPipeline.BranchResumesIff | Year1/ARM_Assembler_Emulator_Project/arm11_48/src/emulate.c:114-156 | A taken branch assembled for a label resumes at the label exactly when the label can be reached. |
| ArmPipeline.WrittenBranchResumesIff | Year1/ARM_Assembler_Emulator_Project/arm11_48/src/emulate.c:114-156 | The same for the bytes the assembler writes. |
| ArmPipeline.Emulator.constructor | Year1/ARM_Assembler_Emulator_Project/arm11_48/src/emulate.c:105-112 | The pipeline as the specification starts it. |
| ArmPipeline.Emulator.DoExecute | Year1/ARM_Assembler_Emulator_Project/arm11_48/src/emulate.c:56-72 | Branches move r15; everything else is as the instruction says. |
| ArmPipeline.Emulator.Turn | Year1/ARM_Assembler_Emulator_Project/arm11_48/src/emulate.c:114-156 | One turn of the loop, on the arrays. |
| ArmPipeline.Emulator.Run | Year1/ARM_Assembler_Emulator_Project/arm11_48/src/emulate.c:114-156 | The loop, up to the all-zero word. |
| ArmPipeline.Emulator.ReverseInstruction | Year1/ARM_Assembler_Emulator_Project/arm11_48/src/emulate.c:74-78 | The decoded word is the fetched one, byte by byte in the other order. |
| ArmPipeline.OneMore | Year1/ARM_Assembler_Emulator_Project/arm11_48/src/emulate.c:114-156 | A run of one instruction more does that instruction last, unless the program has halted. |
| ArmPipeline.StaleFlagSkips | Year1/ARM_Assembler_Emulator_Project/arm11_48/src/emulate.c:114-156 | A full pipeline for which a stale isBranch skips the next instruction. |
| ArmPipeline.WrittenCounterIsLate | Year1/ARM_Assembler_Emulator_Project/arm11_48/src/emulate.c:114-156 | A program that begins with mov r15, #64: although the counter is written, the next word decoded is the one that was already fetched, and the pipeline is not full any more. |
| ThreadLists.SharedElementTears | Year2/Pintos_Project/pintos_task0_sk4520/src/threads/thread.h:77-82 | Linking an element that is on a list into another list tears the first. |
| ArmPipeline.ConditionsMean | Year1/ARM_Assembler_Emulator_Project/arm11_48/src/emulator/cond/cond.c:18-56 | Behind a signed comparison of 32-bit numbers, with the flags N, Z and V that it should leave, each condition code holds exactly if the numbers compare in the way that it stands for, and codes without a meaning never. |
| ArmPipeline.CompareBranchesIff | Year1/ARM_Assembler_Emulator_Project/arm11_48/src/emulator/data_processing/data_processing.c:78-168 | Behind the emulator's own cmp, which takes N from bit 30 and leaves V alone: eq, ne and al are right, and ge, lt, gt and le are right exactly when bit 30 of the difference is its sign. |
| ArmPipeline.CompareCanMislead | Year1/ARM_Assembler_Emulator_Project/arm11_48/src/emulator/data_processing/data_processing.c:78-93 | The nearest differences for which it is not, and a bge after cmp of 2^30 with 0 that is not taken. |
| ArmPipeline.MoveStep | Year1/ARM_Assembler_Emulator_Project/arm11_48/src/emulator/data_processing/data_processing.c:96-168 | mov writes its operand to its register, goes on to the next instruction, and changes nothing else. |

## Left out

- ConditionVariables.PerformKeeps: condition variables are steps of the transition system, without methods of the class Kernel; `cond_broadcast` is not a step of its own, since it calls `cond_signal` until the list is empty.
- Thread identifiers are given, so `allocate_tid` and its lock are not modelled; nor are priorities, statistics and `thread_foreach`.
- The handshake of `thread_start` with the idle thread: runs begin when interrupts are on and idle has not run yet; idle's own first section is a step.
- Tick counts are unbounded integers; the source's counter has 64 bits.
- Interrupts other than the timer's, and hardware effects: a section with interrupts off is one step.
- SplayTree.SplayTree.Insert: requires fewer than 2^32 - 1 keys when the key is new, since num_keys is an unsigned int; allocation of nodes and stacks succeeds, as `xmalloc` aborts otherwise.
- SplayCost.SearchesAreLogarithmic: the searches of the splaying algorithm itself; what the helper's second descent, a rebalancing and the updates cost is not counted.
- SplayTree.SplayTree.ForEach: the function that is called for each node is pure; its data pointer is part of it.
- KernelList.List.Splice: the segment is given by its positions in a list, so it cannot be a stretch of links that is no list segment.
- `list_unique`, `list_max` and `list_min`: loops without the difficulties of the others.
- Malloc.Allocator.Malloc: addresses and ownership only, not the contents of memory; the locks of the descriptors are not modelled, so this is the allocator as seen by one caller at a time.
- `realloc` and `calloc`: they are calls of `malloc` and `free` with a copy of the contents.
- Palloc.PageAllocator.GetPages: the flag for the pool only; filling pages with zeros, and the panics when pages or room for a bitmap are missing, are not modelled.
- InodeData.ReadAt: the disk does not fail, and offsets are not negative; so for writing.
- Arithmetic64.SdivTruncatesTowardZero: the one quotient that does not fit is taken to wrap, which C leaves undefined.
- FileSystemVolume.Volume.FreeMapAllocate: whether the free map's file can be written is a parameter; what is in that file is not modelled.
- FileSystemVolume.Volume.FreeMapRelease: the write of the free map's file, whose result the source ignores, is not modelled.
- FileSystemVolume.Volume.CreateFile: the class has no contents of files; that a new file is cleared, and what reading and writing do, is in InodeData.
- The byte layout of directory entries and of the inode on disk, and the short-lived open of the root directory during each call.
- File growth and subdirectories, which the source does not implement.
- HashTable.Table: buckets are sequences, not linked lists; `hash_clear` and `hash_apply` are not modelled.
- HeapSort.DoSwap: elements are values and are not swapped byte by byte; positions are unbounded, so doubling them does not wrap.
- MatrixMultiply.MM3: one parametric matrix size in place of the compile-time constant; its inner loops are methods of their own.
- Ustar.FormatOctal: the octal conversion with zero padding only; precision, signs, other bases and grouping are not modelled.
- ArmPipeline.CycleIsStepIff: instructions other than branches are a parameter of the model, since their flags and shifts do not follow the architecture; reading a word outside memory gives a word that is a parameter too.
- ArmPipeline.Emulator.DoExecute: data processing, multiply and transfer instructions are that parameter; only for mov with an unrotated immediate a predicate says what the source does.
- ArmPipeline.Emulator.Run: a program need not halt, so the loop is run for a given number of turns.
- The assembler's text parsing and label addresses; GPIO; loading the program file.
- Device drivers, page tables, user programs, string functions, random numbers, `printf` parsing and console output.
- The decision tree learner, the web applications, plotting scripts and exercises of the repository.
