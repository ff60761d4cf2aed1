# Pintos scheduling core in Dafny

This project models the scheduling core of a Pintos kernel (the teaching
operating system) and proves properties of it. The core has three parts:

- **The kernel's doubly linked list** (`lib/kernel/list.c`), in `KernelList.dfy`.
  A class keeps the `next`/`prev` link fields of the head and tail sentinels and
  of every element in the list. Its ghost sequence `Elems` says what the list
  holds. Every list operation is proved against a meaning stated on sequences
  in `ListSpec.dfy`: insertion, removal, splicing, reversal, ordered insertion,
  natural merge sort, `list_unique`, `list_max` and `list_min`. `ListSort.dfy`
  holds the bookkeeping of `list_sort`'s merge passes.
- **The thread scheduler** (`threads/thread.c`), in `Threads.dfy`. A snapshot
  `Sched` holds these parts:
  - the thread table (tid → status, base priority, whether it has a page map);
  - the effective priorities and the wakeup ticks, keyed by tid;
  - the ready queue and the dying queue, as sequences of tids;
  - `current`, `idle` and `initial`;
  - `next_tid` and the tick counters.

  Each operation is a function on that snapshot, and lemmas prove that it keeps
  the invariant `Inv`. The class `Scheduler` performs the operations on its
  fields, as thread.c does on its globals. Each method is proved to end in the
  state the matching function computes.
- **The timer** (`devices/timer.c`), in `Timer.dfy`. It has the tick counter,
  the sleep list ordered by wakeup tick, `timer_sleep`, the timer interrupt
  and the conversion from real time to ticks.

The invariant `Inv` contains these facts:
- every queued or named thread exists;
- tids lie in `1 .. next_tid-1`;
- the ready queue holds distinct READY threads in non-increasing priority;
- the dying queue holds distinct DYING threads, and never the initial thread;
- exactly the current thread is RUNNING, and it is not queued;
- every READY thread is queued or is the idle thread.

The sleep list holds distinct BLOCKED threads other than the idle thread,
ordered by wakeup tick. Each queue holds threads of a single status. So,
like the single `elem` field of `struct thread`, a thread is in at most one
of the ready queue, the sleep list and the dying queue.

The scheduler's queues are sequences. `list_insert_ordered` and
`list_pop_front` act on them as `ListSpec.InsertionOf` and `s[1..]`;
`KernelList.List.InsertOrdered` and `KernelList.List.PopFront` prove that the
linked implementation does exactly that.

Two facts of the code shape the model:
- `timer_sleep` has no guard for a non-positive tick count. The caller is
  still queued and blocked, and the next interrupt wakes it
  (`Timer.SleepWakesAt`).
- Nothing re-sorts the ready queue. The `list_sort` call in
  `next_thread_to_run` is commented out (`threads/thread.c:415`), so ready
  order is set only when a thread is inserted. `thread_set_priority` changes
  only the running thread's priority, and the running thread is never queued.
  So sortedness is an invariant of the model. A donation that raised the
  priority of a queued thread would break it; donation is not part of this
  model.

## Model

| member | source | states |
|---|---|---|
| `KernelList.List.constructor` | pintos/lib/kernel/list.c:60-67 | list_init: the list is empty and the head's next is the tail, the tail's prev the head |
| `KernelList.List.Empty` | pintos/lib/kernel/list.c:312-315 | list_empty holds exactly when the list holds no element |
| `KernelList.List.Begin` | pintos/lib/kernel/list.c:71-75 | list_begin is the front element, or the tail of an empty list |
| `KernelList.List.Next` | pintos/lib/kernel/list.c:81-85 | list_next of the head or an element is its successor in the chain head, elements, tail |
| `KernelList.List.Prev` | pintos/lib/kernel/list.c:112-116 | list_prev of the tail or an element is its predecessor in that chain |
| `KernelList.List.Front` | pintos/lib/kernel/list.c:283-287 | list_front of a non-empty list is its first element |
| `KernelList.List.Back` | pintos/lib/kernel/list.c:292-296 | list_back of a non-empty list is its last element |
| `KernelList.List.Insert` | pintos/lib/kernel/list.c:167-176 | list_insert puts the element immediately before `before` (the tail or an element); the others keep their order |
| `KernelList.List.PushFront` | pintos/lib/kernel/list.c:205-208 | list_push_front makes the element the new front |
| `KernelList.List.PushBack` | pintos/lib/kernel/list.c:212-215 | list_push_back makes the element the new back |
| `KernelList.List.Remove` | pintos/lib/kernel/list.c:252-258 | list_remove deletes exactly that element, keeps the rest in order and returns its former successor |
| `KernelList.List.PopFront` | pintos/lib/kernel/list.c:263-268 | list_pop_front of a non-empty list returns the former front and leaves the rest |
| `KernelList.List.PopBack` | pintos/lib/kernel/list.c:273-278 | list_pop_back of a non-empty list returns the former back and leaves the rest |
| `KernelList.List.Size` | pintos/lib/kernel/list.c:301-309 | list_size counts the elements, changing nothing |
| `KernelList.List.Reverse` | pintos/lib/kernel/list.c:319-338 | list_reverse leaves the elements in reverse order, linked |
| `ListSpec.ReversedTwice` | pintos/lib/kernel/list.c:327-338 | reversing twice gives back the list |
| `KernelList.List.Splice` | pintos/lib/kernel/list.c:181-201 | list_splice moves [first, last) to just before `before`; with first == last nothing moves |
| `ListSpec.SplicedPerm` | pintos/lib/kernel/list.c:181-201 | a splice moves elements but neither adds nor loses any |
| `KernelList.List.IsSorted` | pintos/lib/kernel/list.c:343-351 | is_sorted(a, b) holds exactly when no element of [a, b) is less than its predecessor |
| `KernelList.List.FindEndOfRun` | pintos/lib/kernel/list.c:360-372 | find_end_of_run returns the end of the longest non-decreasing run from `a`, which is `b` or a descent |
| `KernelList.List.InplaceMerge` | pintos/lib/kernel/list.c:380-399 | inplace_merge replaces two adjacent sorted runs by their merge; on ties the first run goes first, so equal elements keep their order |
| `ListSpec.MergedPerm` | pintos/lib/kernel/list.c:380-399 | a merge is a permutation of its two runs |
| `ListSpec.MergedSorted` | pintos/lib/kernel/list.c:380-399 | the merge of two sorted runs is sorted |
| `ListSpec.MergedStable` | pintos/lib/kernel/list.c:391-398 | the merge keeps the order of equivalent elements: those of the first run precede those of the second |
| `KernelList.List.MergePass` | pintos/lib/kernel/list.c:418-431 | one pass of list_sort's outer loop: a permutation that keeps equivalent elements in order and counts its runs; one run means the list is sorted |
| `KernelList.List.Sort` | pintos/lib/kernel/list.c:404-435 | list_sort leaves a sorted permutation of its input, with equivalent elements in their old order |
| `ListSpec.NoDescentsIsAdjSorted` | pintos/lib/kernel/list.c:343-351 | a list has no descent exactly when each element is not less than its predecessor |
| `ListSpec.AdjSortedIsSorted` | pintos/lib/kernel/list.c:404-435 | under a strict weak order, neighbour-wise sortedness is sortedness |
| `KernelList.List.InsertOrdered` | pintos/lib/kernel/list.c:440-453 | list_insert_ordered inserts before the first element the new one is less than |
| `ListSpec.InsertPos` | pintos/lib/kernel/list.c:440-453 | the insertion point is after every element the new one is not less than and before the first it is less than |
| `ListSpec.InsertionPerm` | pintos/lib/kernel/list.c:440-453 | ordered insertion adds exactly the new element |
| `ListSpec.InsertionSorted` | pintos/lib/kernel/list.c:440-453 | ordered insertion into a sorted list gives a sorted list |
| `ListSpec.InsertionStable` | pintos/lib/kernel/list.c:440-453 | the new element lands after every element equivalent to it (FIFO among equals) |
| `KernelList.List.MoveToBack` | pintos/lib/kernel/list.c:473-475 | list_unique's removal of a duplicate: the element leaves this list and, when `duplicates` is non-null, is appended to it |
| `KernelList.List.Unique` | pintos/lib/kernel/list.c:459-479 | list_unique keeps the first of each run of equal neighbours and appends the others, in order, to `duplicates` when it is non-null |
| `ListSpec.DedupedPerm` | pintos/lib/kernel/list.c:459-479 | the kept and the removed elements together are the old list |
| `ListSpec.DedupedNoAdjacent` | pintos/lib/kernel/list.c:459-479 | after list_unique no two neighbours are equal |
| `ListSpec.DedupedIdempotent` | pintos/lib/kernel/list.c:459-479 | a second list_unique removes nothing |
| `KernelList.List.Max` | pintos/lib/kernel/list.c:486-498 | list_max returns the tail of an empty list, otherwise an element no other is greater than, and the earliest such |
| `KernelList.List.Min` | pintos/lib/kernel/list.c:505-517 | list_min returns the tail of an empty list, otherwise an element no other is less than, and the earliest such |
| `ListSpec.MaxStep` | pintos/lib/kernel/list.c:493-495 | one step of list_max's scan keeps "earliest maximum of the prefix" |
| `ListSpec.MinStep` | pintos/lib/kernel/list.c:512-514 | one step of list_min's scan keeps "earliest minimum of the prefix" |
| `Threads.HigherPriorityOrder` | pintos/threads/thread.c:421-437 | compare_ready_priority and compare_donation_priority (strict `>`) are strict weak orders; two threads are equivalent exactly when their priorities are equal |
| `Threads.ReadyInsert` | pintos/threads/thread.c:212-225 | inserting into the ready queue puts the thread after every thread of equal or higher priority and before every lower one, keeps the queue sorted and adds only that thread |
| `Threads.FrontIsHighest` | pintos/threads/thread.c:409-418 | the front of the ready queue has the highest priority in it |
| `Threads.BootInv` | pintos/threads/thread.c:54-73 | after thread_init the invariant holds and the initial thread runs at PRI_DEFAULT |
| `Threads.Scheduler.constructor` | pintos/threads/thread.c:54-73 | thread_init: the initial thread has tid 1, is RUNNING at PRI_DEFAULT, and the queues are empty |
| `Threads.Scheduler.AllocateTid` | pintos/threads/thread.c:576-586 | allocate_tid returns next_tid and increments it, so the tid is positive and above every tid in use |
| `Threads.AdmitKeeps` | pintos/threads/thread.c:388-405 | init_thread plus allocate_tid keep the invariant: the new thread is BLOCKED under a fresh tid |
| `Threads.Scheduler.AdmitThread` | pintos/threads/thread.c:388-405 | init_thread and allocate_tid: a BLOCKED thread whose base and effective priority are the given one, under the next tid |
| `Threads.Scheduler.Unblock` | pintos/threads/thread.c:212-225 | thread_unblock of a BLOCKED thread makes it READY and inserts it into the ready queue by priority, and does not preempt |
| `Threads.UnblockKeeps` | pintos/threads/thread.c:212-225 | thread_unblock keeps the invariant; the thread is READY, queued, and the queue gains only it |
| `Threads.Scheduler.NextThreadToRun` | pintos/threads/thread.c:409-418 | next_thread_to_run returns the idle thread when the ready queue is empty, otherwise pops its front, which has the highest priority |
| `Threads.Scheduler.SwitchThreads` | pintos/threads/thread.c:551-571 | after the choice, the next thread is RUNNING, thread_ticks is 0, and the outgoing thread joins the dying queue iff it is DYING, is not the next thread and is not the initial thread |
| `Threads.Scheduler.Schedule` | pintos/threads/thread.c:542-572 | schedule() performs ScheduleStep and ends in a state that keeps the invariant |
| `Threads.ScheduleKeeps` | pintos/threads/thread.c:542-572 | from any state schedule() accepts, the next thread exists and the state after schedule() keeps the invariant |
| `Threads.ScheduleReady` | pintos/threads/thread.c:542-572 | after schedule() the ready queue is the old one without its front, still sorted, and the new current thread is RUNNING and not queued |
| `Threads.ScheduleReadyQueued` | pintos/threads/thread.c:542-572 | after schedule() every READY thread is still queued or is the idle thread |
| `Threads.ScheduleDying` | pintos/threads/thread.c:560-567 | after schedule() the dying queue holds distinct DYING threads other than the initial and the current one, and every DYING thread is queued, initial or current |
| `Threads.Scheduler.FreeDyingThreads` | pintos/threads/thread.c:531-536 | do_schedule's loop frees every thread of the dying queue and empties it |
| `Threads.FreeDyingKeeps` | pintos/threads/thread.c:531-536 | freeing the dying queue keeps the invariant, removes only the dying threads and leaves the others unchanged |
| `Threads.Scheduler.DoSchedule` | pintos/threads/thread.c:526-539 | do_schedule frees the dying queue first, then sets the current thread's status, then schedules |
| `Threads.Scheduler.Block` | pintos/threads/thread.c:201-207 | thread_block: the current thread becomes BLOCKED and another is scheduled |
| `Threads.BlockKeeps` | pintos/threads/thread.c:201-207 | thread_block keeps the invariant; the caller leaves the CPU BLOCKED unless it is the idle thread with nothing ready |
| `Threads.Scheduler.Yield` | pintos/threads/thread.c:266-280 | thread_yield re-inserts the current thread by priority unless it is the idle thread, then does do_schedule(READY) |
| `Threads.YieldKeeps` | pintos/threads/thread.c:266-280 | thread_yield keeps the invariant; a non-idle caller keeps running or is queued |
| `Threads.Scheduler.Exit` | pintos/threads/thread.c:251-263 | thread_exit does do_schedule(DYING) |
| `Threads.ExitKeeps` | pintos/threads/thread.c:251-263 | thread_exit keeps the invariant, frees every earlier dying thread, and queues the caller for destruction unless it is the initial thread |
| `Threads.Scheduler.PreemptByPriority` | pintos/threads/thread.c:300-310 | preemption_by_priority yields when the ready queue's front has a strictly higher priority than the current thread, and otherwise changes nothing |
| `Threads.PreemptIff` | pintos/threads/thread.c:300-310 | the preemption test holds exactly when some ready thread has a strictly higher priority than the current one |
| `Threads.PreemptKeeps` | pintos/threads/thread.c:300-310 | preemption keeps the invariant and is a no-op when the test fails |
| `Threads.YieldLeaves` | pintos/threads/thread.c:300-310 | when the test holds, the current thread loses the CPU |
| `Threads.PreemptThreadKept` | pintos/threads/thread.c:300-310 | preemption keeps every ready thread and its priorities |
| `Threads.Scheduler.SetPriority` | pintos/threads/thread.c:333-344 | thread_set_priority sets the base priority, takes the recomputed effective priority and then checks for preemption |
| `Threads.ReprioritizeKeeps` | pintos/threads/thread.c:333-340 | changing the running thread's priorities keeps the invariant, because the running thread is not queued |
| `Threads.SetPriorityKeeps` | pintos/threads/thread.c:333-344 | thread_set_priority keeps the invariant, and the thread's base and effective priorities are the new ones |
| `Threads.SetPriorityYields` | pintos/threads/thread.c:333-344 | lowering the priority below a ready thread's makes the caller give up the CPU |
| `Threads.Scheduler.GetPriority` | pintos/threads/thread.c:347-350 | thread_get_priority returns the effective priority of the current thread |
| `Threads.Scheduler.Create` | pintos/threads/thread.c:154-195 | thread_create returns TID_ERROR when no page is found; otherwise it admits a thread, unblocks it, checks for preemption and returns its tid |
| `Threads.CreateKeeps` | pintos/threads/thread.c:154-195 | thread_create keeps the invariant, returns TID_ERROR exactly when page allocation fails, and then changes nothing |
| `Threads.CreateFresh` | pintos/threads/thread.c:168-170 | a successful thread_create returns the next, unused tid, and the new thread has the given priority |
| `Threads.CreatePreempts` | pintos/threads/thread.c:188-192 | a thread created above the caller's priority takes the CPU at once |
| `Threads.Scheduler.Tick` | pintos/threads/thread.c:112-129 | thread_tick charges the tick to the idle, user or kernel counter and asks for a yield once thread_ticks reaches TIME_SLICE |
| `Threads.TickKeeps` | pintos/threads/thread.c:112-129 | thread_tick keeps the invariant and increments exactly one of the three counters: idle iff idle thread, user iff a user process runs; the yield request is ++thread_ticks >= 4 |
| `Threads.Scheduler.RegisterIdle` | pintos/threads/thread.c:363 | the thread that starts idle() becomes the idle thread |
| `Threads.Scheduler.SetWakeup` | pintos/devices/timer.c:91 | sets the running thread's wakeup tick, and nothing else |
| `Timer.EarlierWakeupOrder` | pintos/devices/timer.c:77-82 | compare_tick (strict `<`) is a strict weak order; two threads are equivalent exactly when they wake at the same tick |
| `Timer.SleepInsert` | pintos/devices/timer.c:95 | inserting into the sleep list puts the thread after every sleeper with an equal or earlier tick and before every later one |
| `Timer.Timer.constructor` | pintos/devices/timer.c:27-37 | timer_init: the sleep list is empty and the count is 0 |
| `Timer.Timer.TimerTicks` | pintos/devices/timer.c:61-69 | timer_ticks returns the tick count |
| `Timer.Timer.TimerElapsed` | pintos/devices/timer.c:72-75 | timer_elapsed(then) is the tick count minus `then`, non-negative for an earlier reading |
| `Timer.Timer.Sleep` | pintos/devices/timer.c:85-98 | timer_sleep(n) sets the wakeup tick to the count at entry plus n, inserts the caller by compare_tick, and blocks it |
| `Timer.SleepKeeps` | pintos/devices/timer.c:85-98 | after timer_sleep the sleep list is still a sleep list and has gained only the caller |
| `Timer.SleepBlocks` | pintos/devices/timer.c:85-98 | after timer_sleep the scheduler invariant holds, the caller is BLOCKED and off the CPU, and its wakeup tick is now + n |
| `Timer.SleepWakesAt` | pintos/devices/timer.c:85-98 | the sleeping caller is woken by the interrupt of tick `later` exactly when later >= now + n; with n <= 0 that is the next interrupt |
| `Timer.SleepFiveAtHundred` | pintos/devices/timer.c:91 | sleeping 5 ticks at tick 100: the interrupts of ticks 101 to 104 wake nobody, that of tick 105 wakes the thread |
| `Timer.Timer.Interrupt` | pintos/devices/timer.c:125-146 | the interrupt increments the count by one, runs thread_tick once, and unblocks exactly the due prefix of the sleep list, in order |
| `Timer.Timer.WakeDue` | pintos/devices/timer.c:130-145 | the loop pops and unblocks sleepers while the front's wakeup tick is at most the count |
| `Timer.DueSplit` | pintos/devices/timer.c:130-145 | in a sorted sleep list, the due prefix holds exactly the sleepers whose tick has come |
| `Timer.DueIff` | pintos/devices/timer.c:136 | a sleeper is in the due prefix exactly when its wakeup tick is at most the count |
| `Timer.WakeDueKeeps` | pintos/devices/timer.c:130-145 | after the loop the scheduler invariant holds, the remaining sleepers stay a sorted sleep list, and none of them is due |
| `Timer.WakeAllReady` | pintos/devices/timer.c:136-140 | every thread the loop unblocks is READY and in the ready queue |
| `Timer.WakeAllKeeps` | pintos/devices/timer.c:139 | unblocking the due sleepers keeps the scheduler invariant and the running thread; the ready queue gains exactly them |
| `Timer.WakePrefixKeeps` | pintos/devices/timer.c:130-145 | waking any prefix of the sleep list keeps the invariant and leaves the rest a sleep list |
| `Timer.RealTimeTicksBounds` | pintos/devices/timer.c:169 | num * TIMER_FREQ / denom, truncated toward zero: positive exactly when num * freq >= denom, and the quotient bounds of C division |
| `Timer.Timer.RealTimeSleep` | pintos/devices/timer.c:167-181 | real_time_sleep sleeps that many ticks when it is positive and otherwise leaves every state alone |
| `Timer.Timer.MSleep` | pintos/devices/timer.c:101-105 | timer_msleep is real_time_sleep with denominator 1000 |
| `Timer.Timer.USleep` | pintos/devices/timer.c:108-111 | timer_usleep is real_time_sleep with denominator 1000000 |
| `Timer.Timer.NSleep` | pintos/devices/timer.c:114-117 | timer_nsleep is real_time_sleep with denominator 1000000000 |

## Left out

- The context switch is not modelled: `thread_launch`, `do_iret`, the GDT and `running_thread`. Switching threads is `current := next`.
- Interrupt masking and the `intr_context` assertions are left out. Every operation is one atomic step.
- The idle loop, `kernel_thread` and `thread_start`'s semaphore hand-off are left out. `Threads.Scheduler.RegisterIdle` stands for the one line of `idle()` that names the idle thread.
- `palloc_get_page` is a boolean parameter of `Threads.Scheduler.Create`. `palloc_free_page` removes the thread from the table.
- The 8254 programming, `timer_calibrate`, `too_many_loops` and `busy_wait` are left out. The busy-wait branch of `real_time_sleep` changes no modelled state.
- `timer_print_stats` and `thread_print_stats` (output) are left out.
- Semaphores, locks and priority donation are left out. `recalculate_priority` is a parameter `effective`, required to be at least the base priority. `init_thread`'s `donators` list and `waiting_lock` are not modelled.
- The MLFQS stubs (`thread_get_nice` and the others) have empty bodies and are left out.
- `thread_name`, `thread_tid` and `thread_current` only read a field and are left out.
- `process_exit` and `process_activate` (user processes) are not part of this model. `pml4` is a field that no modelled operation sets.
- The intrusive `list_elem` is left out. Queues hold tids, and which queue a thread is in follows from its status.
- `list_end`, `list_head`, `list_tail`, `list_rbegin` and `list_rend` are left out. They return a sentinel or `Prev(TAIL)`; the model names the sentinels `HEAD` and `TAIL`.
- `KernelList.List.Splice`: a splice from another list is not modelled, only within one list, which is how `inplace_merge` uses it.
- `KernelList.List.Sort` and `KernelList.List.MergePass` require a comparator that is a strict weak order; their termination measure (the number of descents) depends on it, so they are not modelled for other comparators. For another comparator `list_sort` need not finish: with a `less` that always holds, `find_end_of_run` ends every run after one element (`pintos/lib/kernel/list.c:367-370`), `inplace_merge` leaves two one-element runs reversed, and each pass of `pintos/lib/kernel/list.c:418-431` counts about n/2 runs, so on three or more elements the outer loop never ends.
- `KernelList.List.Max` and `KernelList.List.Min` state "maximal", "minimal" and "earliest" only under a strict weak order; for any comparator they state membership and that no later element beats the result.
- Every comparator in the kernel is a strict weak order (`Threads.HigherPriorityOrder`, `Timer.EarlierWakeupOrder`).
- `KernelList.List.InplaceMerge` and `KernelList.List.MergePass`: the bodies of `inplace_merge`'s and `list_sort`'s loops are in the helper methods `MergeStep`, `MoveSecond` and `PassStep`.
- The C integer widths are not modelled: tids, the tick counters, `ticks` and `num * TIMER_FREQ` are unbounded integers, so overflow and wrap-around are not modelled.
- `TIMER_FREQ` is defined in `devices/timer.h`, which is not part of this model. The timer has a constant `freq` between 19 and 1000, the bounds `timer.c` checks at compile time.
- `Threads.Scheduler.Unblock` and `Timer.Timer.WakeDue`: their contracts state the new state, not the invariant. `Threads.UnblockKeeps`, `Timer.WakePrefixKeeps` and `Timer.WakeDueKeeps` prove that it is kept.
- `Threads.Scheduler.Block`, `Threads.Scheduler.Exit` and `Timer.Timer.Sleep` require a thread to switch to: a ready thread or the idle thread. The idle thread never exits or sleeps. The source asserts neither; it relies on the idle thread existing once the kernel has started.
- `Threads.Scheduler.RegisterIdle` requires that there is no idle thread yet, as `thread_start` runs once.
- `Timer.Timer.Interrupt`: `intr_yield_on_return` is returned as a flag rather than performed.
