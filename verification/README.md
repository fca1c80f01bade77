# Priority-donating synchronisation primitives and a sorted linked list

This project models, in Dafny, two pieces of a student operating-systems
portfolio and proves what they promise.

**threads/synch.c** holds the semaphores, locks and condition variables of a
single-processor Pintos-style kernel, with priority donation.
- Each operation is modelled as one atomic transition of the objects it names.
  sema_down, sema_up and the body of lock_acquire run with interrupts off.
  lock_try_acquire, lock_release and the condition operations do not, and
  lock_acquire and cond_wait can switch threads partway through. The
  interleavings this allows are not modelled (see "Left out").
- A call that sleeps is split where the thread sleeps. `Semaphore.Down` is one
  test of the `while` guard of `sema_down`: it either queues the caller by
  `sort_priority` and reports that it blocks, or it decrements the value.
  `Lock.Acquire` is `lock_acquire` up to that first test. `Lock.AcquireRetry`
  is the test repeated after a wake-up.
- Threads, semaphores, locks and condition variables are classes whose fields
  the methods update in place.
- The ordered-list utility that synch.c calls (`list_insert_ordered`,
  `list_sort`, `list_pop_front`, `list_remove`, `list_front`) is modelled on
  sequences in module `OrderedList`.
- Comparators read thread and lock priorities from a snapshot map taken when
  the list operation starts. `Priorities` and `LockPriorities` build those
  maps.
- Mutual exclusion, the promise of threads/synch.c:184-187 that at most one
  thread holds a lock, is `Synch.Lock.Valid`: the lock's semaphore is 1 while
  nobody holds it and 0 while a thread does. Every lock operation keeps it,
  and Acquire, AcquireRetry and TryAcquire take the lock only when it had no
  holder.
- `lock_held_by_current_thread` is the predicate `Synch.Lock.HeldByCurrentThread`.
  `sort_priority` and `sort_lock_priority` are `Synch.SortPriority` and
  `Synch.SortLockPriority`, both "greater priority first".
- `sort_sem_priority` is `Synch.SortSemPriority` over each waiter semaphore's
  `Top`: Empty when nobody waits on it, otherwise the top priority of its
  waiters.
- The donation walk of `next_lock_needed` follows the lock copies stored in
  `neededLock`. A ghost sequence `chain` lists the threads it visits. Such a
  chain exists only when the wait-for chain is acyclic, so it is a
  precondition of the walk, and `Synch.CycleHasNoChain` proves that a cycle
  has none.

**cs439/ProblemSet0/linkedlist.c** is a doubly-linked list of `int`s kept
ascending.
- `list_add` pushes a node at the global `head`, and `list_sort` bubbles its
  value to the right by swapping `data` with the right neighbour.
- `list_remove` unlinks and frees the first node holding a value.
- The nodes reachable from `head` are the ghost sequence `List.nodes`, and
  their values are `List.values`. `List.Valid` ties both to `head`, to the
  `next` links and to the `data` fields.
- Freed nodes are collected in the ghost set `List.freed`.
- The bubbling pass is specified on values by `LinkedList.BubblePass`. The
  cases in which it returns are given by `LinkedList.PassTerminates`.

Quirks of the code that the model keeps as written:
- `neededLock` is a structure copy of the lock (threads/synch.c:250). The walk
  therefore follows a snapshot of `holder`, modelled by the datatype
  `LockCopy`.
- The comment on threads/synch.c:346 says the priority is not set for a chained
  lock. The guard on line 347 sets it exactly when `isntChain == 0`, which is
  when a donation went through the lock. The model follows the guard.
- `sort_sem_priority` answers true for two semaphores nobody waits on, and for
  such a semaphore compared with itself (`Synch.SortSemPriorityNotStrict`). So
  it is not a strict order, and only what it still guarantees is proved
  (`Synch.SortArranges`).
- `next_lock_needed` overwrites every holder's priority with the caller's,
  even a higher one.
- `lock_try_acquire` does not file the lock in `all_locks_held`.
- `list_sort` never returns when the moving value meets an equal neighbour
  (`LinkedList.AddOfPresentValueHangs`). `List.Sort` and `List.Add` therefore
  require `PassTerminates`. `LinkedList.AddKeepsStrictlyAscending` shows that a
  new value added to a strictly ascending list meets that requirement.
- `list_sort` and `list_remove` dereference `head` first, so both require a
  non-empty list.

## Model

| member | source | states |
|---|---|---|
| Synch.Semaphore.constructor | threads/synch.c:44-51 | sema_init: the value is the given one and nobody waits |
| Synch.Semaphore.Down | threads/synch.c:78-95 | one test of sema_down's guard: it blocks exactly when the value is 0, queueing the caller by sort_priority; otherwise the value drops by exactly one and the waiters are unchanged |
| Synch.SortPriority | threads/synch.c:53-60 | sort_priority: of two threads on the list, the first goes in front exactly when its current priority is strictly higher |
| Synch.SortLockPriority | threads/synch.c:64-69 | sort_lock_priority: of two held locks, the first goes in front exactly when its lock priority is strictly higher |
| Synch.InsertKeepsPriorityOrder | threads/synch.c:53-60 | queueing a thread with sort_priority keeps the waiters in non-increasing priority order and adds exactly that thread |
| Synch.Semaphore.TryDown | threads/synch.c:102-121 | succeeds exactly when the value is positive; it then decrements by one, and otherwise changes nothing |
| Synch.Semaphore.Up | threads/synch.c:127-145 | the value rises by exactly one; with no waiter nobody is woken; otherwise the woken thread is a waiter of the highest current priority, the front of the re-sorted list, and the other waiters stay queued in that order |
| Synch.SortedFrontHasTopPriority | threads/synch.c:134-139 | the waiters re-sorted by current priority are in non-increasing order, and their front has a priority at least that of every waiter |
| Synch.PopFront | threads/synch.c:137-139 | popping the re-sorted front takes out one waiter of the highest priority and keeps every other waiter |
| Synch.TopPriority | threads/synch.c:137-139 | the priority of the front after the re-sort: at least that of every waiter, and held by one of them |
| Synch.Lock.constructor | threads/synch.c:199-209 | lock_init: no holder, a fresh semaphore of value 1 with no waiter, priority PRI_DEFAULT (31), is_not_null 0, isntChain 1; the lock starts out valid (free, semaphore 1) |
| Synch.Lock.HeldByCurrentThread | threads/synch.c:362-368 | lock_held_by_current_thread: the lock has a holder, the caller; on a valid lock its semaphore is then 0 |
| Synch.Lock.Acquire | threads/synch.c:219-270 | a free lock takes the caller's priority; a donation records the copied lock in neededLock, clears isntChain, gives every thread of the chain the caller's priority and donation mode, and raises the lock's priority to at least the caller's; then the caller blocks exactly when the semaphore is 0, which is exactly when another thread holds the lock, or becomes the holder with the lock filed by lock priority and neededLock cleared; mutual exclusion (Lock.Valid: semaphore 1 when free, 0 when held) is kept |
| Synch.Lock.AcquireRetry | threads/synch.c:262-268 | after a wake-up: blocks again exactly when the semaphore is 0, that is when some thread holds the lock; otherwise the lock had no holder and the caller takes it as in Acquire; mutual exclusion is kept |
| Synch.Lock.Take | threads/synch.c:263-268 | the caller becomes the holder, the lock is inserted into its held locks by sort_lock_priority, and is_not_null of neededLock becomes 0 |
| Synch.InsertKeepsLockOrder | threads/synch.c:64-69 | inserting a lock with sort_lock_priority keeps the held locks in non-increasing lock priority and adds exactly that lock |
| Synch.SortedFrontHasTopLockPriority | threads/synch.c:344-350 | the held locks re-sorted by lock priority are in order, and the front one has the highest lock priority |
| Synch.Lock.NextLockNeeded | threads/synch.c:275-289 | every thread on the chain of copied needed locks gets the caller's priority and donation mode, and keeps its other fields |
| Synch.ChainUnique | threads/synch.c:279-281 | the walk from a thread is determined: one start, one chain |
| Synch.ChainSuffix | threads/synch.c:279-281 | every suffix of a chain is the chain of its first thread |
| Synch.ChainAcyclic | threads/synch.c:279-281 | a chain on which the walk ends visits no thread twice |
| Synch.CycleHasNoChain | threads/synch.c:279-281 | when threads wait on each other in a cycle of copied locks, the walk has no end |
| Synch.Lock.TryAcquire | threads/synch.c:297-316 | succeeds exactly when the semaphore is positive, which is exactly when nobody holds the lock; it then decrements it and sets only the holder; on failure nothing changes; mutual exclusion is kept |
| Synch.Lock.Release | threads/synch.c:323-357 | the state of Leave, and the lock's semaphore is upped as in Semaphore.Up, from the waiters' priorities after the priority restore; the lock is left free with semaphore 1, so mutual exclusion is kept |
| Synch.Lock.Leave | threads/synch.c:329-355 | the holder is cleared, the lock leaves the held list and isntChain becomes 1; the releasing thread falls back as RestorePriority states |
| Synch.Lock.RestorePriority | threads/synch.c:333-354 | a thread on its own priority is untouched; a donated thread holding no lock returns to its original priority and leaves donation mode; otherwise its held locks are re-sorted, and it takes the top lock priority exactly when isntChain is 0 |
| Synch.SortSemPriority | threads/synch.c:377-407 | sort_sem_priority: every semaphore goes in front of one nobody waits on; one nobody waits on never goes in front of one with waiters; of two with waiters, the first goes in front exactly when its top priority is strictly higher |
| Synch.CellTop | threads/synch.c:383-403 | a waiter semaphore's top is Empty exactly when nobody waits on it, and otherwise the highest priority among its waiters: at least every waiter's and held by one of them |
| Synch.CellTops | threads/synch.c:377-407 | the snapshot of tops that sort_sem_priority compares has an entry for every waiter semaphore |
| Synch.SortSemPriorityNotStrict | threads/synch.c:383-386 | two semaphores nobody waits on each go in front of the other, and such a semaphore goes in front of itself |
| Synch.InsertKeepsArranged | threads/synch.c:450-451 | ordered insertion with sort_sem_priority keeps the semaphores with waiters in front, by non-increasing top, and the others behind |
| Synch.FrontStaysInFront | threads/synch.c:450-451 | a semaphore that the new one does not overtake may still stand in front of everything behind it after the insertion |
| Synch.ArrangedCons | threads/synch.c:377-407 | prefixing an arrangement with a semaphore that every element may follow keeps it arranged |
| Synch.SortArranges | threads/synch.c:474 | sorting with sort_sem_priority arranges the semaphores |
| Synch.SortedFrontHasTopCell | threads/synch.c:474-476 | after the sort, the front semaphore has the highest top, and it has waiters whenever any semaphore has |
| Synch.FrontCellHoldsTopThread | threads/synch.c:474-476 | the front semaphore after the sort holds a thread whose priority is at least that of every thread waiting on the condition |
| Synch.EmptyCellInsertion | threads/synch.c:450-451 | the new semaphore of cond_wait goes behind every semaphore with waiters and in front of the first without, or at the back |
| Synch.DistinctInsert | threads/synch.c:451 | linking in a semaphore that is not queued keeps every semaphore queued once |
| Synch.DistinctPop | threads/synch.c:474-476 | popping the sorted front leaves the others queued once each, without the popped one |
| Synch.Condition.constructor | threads/synch.c:412-418 | cond_init: no waiter |
| Synch.Condition.Wait | threads/synch.c:440-456 | up to the sleep: a fresh semaphore of value 0 is inserted by sort_sem_priority, the lock is released as in Lock.Release, and the caller is the only waiter of the new semaphore |
| Synch.Condition.Enqueue | threads/synch.c:450-451 | a fresh semaphore of value 0 with no waiter is inserted by sort_sem_priority, and every semaphore stays queued once |
| Synch.Condition.Sleep | threads/synch.c:453-454 | the lock is released as in Lock.Release, and the caller then blocks on its own semaphore, which still has value 0 |
| Synch.Condition.Signal | threads/synch.c:465-478 | no-op on an empty queue; otherwise exactly one queued semaphore is removed and upped as in Semaphore.Up; it has the highest top, so its woken thread has the highest priority on the condition; every other semaphore is unchanged |
| Synch.Condition.PopTop | threads/synch.c:473-476 | the queue re-sorted by sort_sem_priority loses its front, which has the highest top, and the rest keep the sorted order |
| Synch.Condition.SignalOne | threads/synch.c:492-493 | one round of the loop: one queued semaphore leaves the queue and is upped as in Semaphore.Up, and every other one stays queued and unchanged |
| Synch.Condition.Broadcast | threads/synch.c:480-494 | ends with no waiter; each queued semaphore is upped exactly once as Semaphore.Up states, and `woken` maps it to the thread that up woke: a waiter of it with the highest priority, whenever it had one |
| OrderedList.InsertionPoint | threads/synch.c:89-90 | the insertion point of list_insert_ordered lies behind every element the new one does not precede and in front of the first one it does |
| OrderedList.InsertOrdered | threads/synch.c:89-90 | list_insert_ordered makes the list one longer |
| OrderedList.InsertOrderedMultiset | threads/synch.c:89-90 | the insertion adds exactly the new element |
| OrderedList.InsertOrderedAt | threads/synch.c:89-90 | the new element lands at the insertion point, with the others in their old order |
| OrderedList.InsertOrderedKeepsSorted | threads/synch.c:89-90 | for a strict order, insertion into a sorted list keeps it sorted |
| OrderedList.InsertOrderedAtBack | threads/synch.c:451 | an element that precedes none of the list goes to the back |
| OrderedList.Sort | threads/synch.c:137 | list_sort is a permutation |
| OrderedList.SortSorted | threads/synch.c:137 | for a strict order, list_sort's result is sorted |
| OrderedList.SortOfSorted | threads/synch.c:344 | sorting a sorted list changes nothing |
| OrderedList.Remove | threads/synch.c:331 | list_remove takes out one element when present and leaves the list alone otherwise |
| OrderedList.RemoveMultiset | threads/synch.c:331 | removal takes out exactly one occurrence |
| OrderedList.RemoveKeepsSorted | threads/synch.c:331 | removal keeps a sorted list sorted |
| OrderedList.RemoveIsSubsequence | threads/synch.c:331 | every remaining element was in the list |
| OrderedList.SortedGreaterIsDescending | threads/synch.c:53-60 | a list sorted by "greater key first" has non-increasing keys |
| OrderedList.InsertGreaterKeepsDescending | threads/synch.c:89-90 | insertion by "greater key first" keeps keys non-increasing |
| OrderedList.SortGreaterFrontIsMax | threads/synch.c:137-139 | after sorting by "greater key first", the front has the largest key and the keys are non-increasing |
| OrderedList.TopKey | threads/synch.c:349-350 | the top key is at least every key in the list |
| OrderedList.TopKeyIsAttained | threads/synch.c:349-350 | the front after sorting by "greater key first" is in the list and holds the top key |
| LinkedList.Node.constructor | cs439/ProblemSet0/linkedlist.c:31-34 | malloc plus the stores of list_add: data and next set, prev left indeterminate |
| LinkedList.List.constructor | cs439/ProblemSet0/linkedlist.c:10 | the program starts with an empty list |
| LinkedList.PassTerminates | cs439/ProblemSet0/linkedlist.c:17-28 | list_sort returns: the pass never finds the moving value equal to its right neighbour |
| LinkedList.AscendingPassTerminates | cs439/ProblemSet0/linkedlist.c:17-28 | on ascending values list_sort returns exactly when they are strictly ascending |
| LinkedList.BubblePass | cs439/ProblemSet0/linkedlist.c:17-28 | one pass of list_sort keeps the number of values |
| LinkedList.PassPermutes | cs439/ProblemSet0/linkedlist.c:25-27 | the pass only moves values around: the multiset is preserved |
| LinkedList.PassOfAscending | cs439/ProblemSet0/linkedlist.c:17-28 | the pass function BubblePass leaves ascending values unchanged; list_sort itself returns on them exactly when they are strictly ascending (LinkedList.AscendingPassTerminates) |
| LinkedList.PassInsertsHead | cs439/ProblemSet0/linkedlist.c:30-37 | on a new head value followed by ascending values, the pass function BubblePass puts the new value in front of the first larger one, as list_insert_ordered with `<` would; the C pass computes this only when it returns (PassTerminates) |
| LinkedList.PassKeepsAscending | cs439/ProblemSet0/linkedlist.c:30-37 | on a new head value followed by ascending values, the pass function BubblePass gives ascending values holding the old ones plus the new one; list_add itself returns only when the new value is absent from strictly ascending values (LinkedList.AddKeepsStrictlyAscending) |
| LinkedList.StrictlyAscendingPass | cs439/ProblemSet0/linkedlist.c:18-23 | a pass over strictly ascending values returns |
| LinkedList.AddOfNewValueTerminates | cs439/ProblemSet0/linkedlist.c:30-37 | list_add of a value new to a strictly ascending list returns |
| LinkedList.AddOfPresentValueHangs | cs439/ProblemSet0/linkedlist.c:18-27 | list_add of a value already in an ascending list never returns |
| LinkedList.InsertKeepsStrictlyAscending | cs439/ProblemSet0/linkedlist.c:30-37 | inserting a new value into strictly ascending values keeps them strictly ascending |
| LinkedList.AddKeepsStrictlyAscending | cs439/ProblemSet0/linkedlist.c:30-37 | list_add of a new value on a strictly ascending list returns and leaves the list strictly ascending, holding the old values plus the new one |
| LinkedList.RemoveKeepsAscending | cs439/ProblemSet0/linkedlist.c:38-63 | removing the first occurrence keeps ascending values ascending and takes out exactly one occurrence |
| LinkedList.PassStepRight | cs439/ProblemSet0/linkedlist.c:18-19 | stepping past a smaller value leaves the rest of the pass unchanged |
| LinkedList.PassWalk | cs439/ProblemSet0/linkedlist.c:18-24 | walking past an ascending run leaves the rest of the pass unchanged |
| LinkedList.PassAtLast | cs439/ProblemSet0/linkedlist.c:20-22 | at the last node the pass is done |
| LinkedList.PassStepSwap | cs439/ProblemSet0/linkedlist.c:25-27 | swapping a larger value with its right neighbour is the pass's own step, and the pair is then in order |
| LinkedList.SwapFrontPermutes | cs439/ProblemSet0/linkedlist.c:25-27 | trading two neighbouring values keeps the multiset |
| LinkedList.List.Sort | cs439/ProblemSet0/linkedlist.c:11-29 | on a non-empty list that the pass finishes, the nodes and links stay as they are, no node's prev changes, and the values become BubblePass of the old values |
| LinkedList.List.Bubble | cs439/ProblemSet0/linkedlist.c:16-28 | the loop of list_sort on two or more nodes changes only data fields, and leaves the values as BubblePass of the old values |
| LinkedList.List.Ascend | cs439/ProblemSet0/linkedlist.c:18-24 | the walk stops at the first node not below its successor, or at the last node, and every value it passed is below its successor |
| LinkedList.List.SwapWithNext | cs439/ProblemSet0/linkedlist.c:25-27 | the values of a node and its successor trade places; only their data fields change, so links and every prev stay |
| LinkedList.List.Add | cs439/ProblemSet0/linkedlist.c:30-37 | exactly one fresh node is pushed at the head with prev holding the indeterminate value, no old node's prev changes, and the values become the pass over the new value followed by the old ones |
| LinkedList.List.Remove | cs439/ProblemSet0/linkedlist.c:38-63 | an absent value leaves the nodes, values, freed set and every prev unchanged; the first node holding the value is freed; when it is the last node the list still reaches it; otherwise it is unlinked and the values lose the first occurrence; when it is neither head nor last, its successor's prev takes its prev if that is set (line 60), and no other prev changes |
| LinkedList.List.Seek | cs439/ProblemSet0/linkedlist.c:39-47 | the walk finds the value exactly when the list holds it, and then stops at its first occurrence, with the predecessor beside it |
| LinkedList.List.FreeFound | cs439/ProblemSet0/linkedlist.c:48-62 | the found node is freed, and unlinked unless it is the last node; only the successor of a middle node can have its prev changed, as in line 60 |
| LinkedList.List.DropHead | cs439/ProblemSet0/linkedlist.c:53-55 | head moves to the second node, and the first leaves the list |
| LinkedList.List.Unlink | cs439/ProblemSet0/linkedlist.c:57-61 | the predecessor's next skips the node, the successor's prev takes the node's prev when that is set, and no other prev changes |
| LinkedList.List.RemoveCorrected | cs439/ProblemSet0/linkedlist.c:38-63 | as list_remove, except that the last node is unlinked too, so no freed node stays reachable; prev changes as in list_remove |
| LinkedList.List.Excise | cs439/ProblemSet0/linkedlist.c:48-62 | the corrected found-node step: the node leaves the list and is freed, with prev changed only as in line 60 |
| LinkedList.List.CutLast | cs439/ProblemSet0/linkedlist.c:49-51 | the corrected last-node step: the predecessor's next, or head, becomes NULL, and no prev changes |
| LinkedList.ExcisedNotDangling | cs439/ProblemSet0/linkedlist.c:49-51 | taking a node out of a list of distinct nodes and freeing it leaves no freed node in the list |
| LinkedList.IndexOf | cs439/ProblemSet0/linkedlist.c:41 | the position of the first occurrence of the value |
| LinkedList.IndexOfFirst | cs439/ProblemSet0/linkedlist.c:41 | a position holding the value, with no earlier one, is the first occurrence |
| LinkedList.RemovedValues | cs439/ProblemSet0/linkedlist.c:57-58 | dropping the node at the first occurrence removes exactly that occurrence from the values |
| LinkedList.RemoveLastDangles | cs439/ProblemSet0/linkedlist.c:49-51 | adding 5 and then 4, and removing 5, leaves [4, 5] reachable with a freed node in it |

## Left out

- Interrupt masking, `intr_context` and the scheduler (`thread_block`, `thread_unblock`, `thread_yield`, `thread_current`, `thread_get_priority`) are not modelled. The current thread and "called from an interrupt handler" are parameters, and the thread that sema_up unblocks is returned as `woken`.
- Real concurrency and interleavings are left out. Each call is one atomic step, and a sleeping call is cut where the thread sleeps.
- Synch.Lock.Acquire is one atomic step, although lock_acquire calls `thread_yield` (threads/synch.c:261) between the donation and `sema_down`. Other threads may run there and change the holder, the semaphore or the priorities. The model does not capture that.
- Synch.Condition.Wait and Synch.Condition.Sleep are one atomic step. cond_wait runs with interrupts on, and its `lock_release` (threads/synch.c:453) can yield inside `sema_up` (lines 142-143) before `sema_down` on the new semaphore (line 454). If another thread signals that semaphore meanwhile, its value is 1 and the caller does not sleep. The contract `cell.value == 0 && cell.waiters == [cur]` holds only when no signal comes in that window.
- Synch.Lock.TryAcquire and Synch.Lock.Release run with interrupts on in the code. lock_try_acquire sets `holder` after `sema_try_down` has turned interrupts back on, and lock_release never disables them. The model treats both as atomic, and so it treats Synch.Condition.Signal and Synch.Condition.Broadcast the same way.
- The rest of cond_wait after the thread is woken is not one operation here. The repeated `sema_down` test is another call of Synch.Semaphore.Down, and the final `lock_acquire` is Synch.Lock.Acquire followed by Synch.Lock.AcquireRetry.
- Synch.Semaphore.Up: the value is a `nat`. The 32-bit unsigned wrap-around of `value++` in sema_up is not modelled, because no caller gets near it.
- The side effect of `sort_sem_priority`, which sorts each semaphore's own waiter list while comparing, is not modelled. The comparison uses the front priority after that sort (Synch.CellTop), and the inner lists themselves are left unchanged.
- Synch.Condition.Signal does not state the order of the remaining waiter semaphores. Synch.Condition.PopTop states it.
- Synch.Lock.Release: a lock taken by `lock_try_acquire` is not in `all_locks_held`. `list_remove` on its element is undefined in C, and the model removes nothing in that case.
- lib/kernel/list.c is not part of this model. Its `list_sort` is modelled as a stable insertion sort (OrderedList.Sort), and the contracts of Synch.Semaphore.Up, Synch.Lock.RestorePriority and Synch.Condition.PopTop name that sort's exact result. Among threads or locks of equal priority the order is therefore the insertion sort's own, which the library's merge sort need not reproduce. What is proved about these results holds for any correct sort: a permutation, sorted for sort_priority and sort_lock_priority, with a top-priority front.
- Synch.Condition.PopTop and Synch.Condition.Signal: with two or more queued semaphores that nobody waits on, sort_sem_priority puts each in front of the other. The relative order of those semaphores is then this insertion sort's own, and OrderedList.SortOfSorted, Synch.SortArranges, Synch.SortedFrontHasTopCell and Synch.FrontCellHoldsTopThread rely on it. A library sort that checks its result is sorted would fail its check on such a queue. Such a queue arises only when several waiters are in the cond_wait window described above.
- `neededLock` keeps only the lock fields the donation walk reads, not the lock's semaphore and list element.
- `sema_self_test`, `sema_test_helper`, `print_list` and `main` are left out. They are test drivers and console output.
- `malloc` and `free` are modelled only as far as the program needs. A new node is a fresh object, and a freed node goes into the ghost set `freed`.
- The uninitialised `prev` of a new node is the parameter `junk` of LinkedList.List.Add. Nothing but list_remove reads `prev`, so List.Valid does not constrain it. The contracts of the list operations state each node's `prev` separately: only line 60 of list_remove writes it.
- A `list_sort` that never returns cannot be a Dafny method. LinkedList.List.Sort and LinkedList.List.Add require PassTerminates, and LinkedList.AddOfPresentValueHangs shows where the requirement fails.
- LinkedList.List.Add and LinkedList.List.Remove: after the as-written removal of the last node (see Findings), the list still reaches a freed node. The model then reads and writes that node as live memory, as later calls of list_sort and list_remove would in C. It also assumes that malloc never returns the freed block again. If it did, the new node would also be the list's last node, the list would become cyclic, and `fresh(node)` in List.Add would not hold.
- The NULL dereference of list_remove and list_sort on an empty list is a precondition (`head != null`), not a modelled crash.

## Findings

| source | as written | input that shows it | evidently intended | confidence | as-written member | corrected member |
|---|---|---|---|---|---|---|
| cs439/ProblemSet0/linkedlist.c:49-51 | the last node holding the value is freed, but its predecessor's `next` (or `head`) still points at it | list [4, 5], remove 5 (LinkedList.RemoveLastDangles) | the predecessor's `next`, or `head`, becomes NULL before the free, so the value leaves the list and no freed node stays reachable | not executed | LinkedList.List.Remove | LinkedList.List.RemoveCorrected |
