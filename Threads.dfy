/**
 * The thread scheduler of threads/thread.c: the thread table, the ready
 * queue kept in descending priority, the queue of threads waiting to be
 * destroyed, and the moves between the four thread states.
 *
 * A thread is named by its tid. Every operation runs with interrupts off and
 * is modelled as one atomic step. The scheduler's queues are sequences of
 * tids; list_insert_ordered and list_pop_front act on them as their meaning
 * in ListSpec says. A thread has one list_elem, so it may sit in one queue
 * only: the ready queue holds READY threads and the dying queue DYING ones.
 *
 * The pure part below describes each operation as a function on a snapshot
 * `Sched` and proves that it keeps the scheduler's invariant `Inv`; the class
 * `Scheduler` at the end runs the operations on its fields, as thread.c does
 * on its globals, and is proved against those functions.
 */
module Threads {
  import opened ListSpec

  /** enum thread_status. */
  datatype Status = Running | Ready | Blocked | Dying

  const PRI_MIN: int := 0
  const PRI_DEFAULT: int := 31
  const PRI_MAX: int := 63
  const TID_ERROR: int := -1
  /** Timer ticks a thread may run before it is asked to yield. */
  const TIME_SLICE: int := 4
  /** A null thread pointer, as idle_thread is before the idle thread starts. Tids start at 1. */
  const NO_THREAD: int := 0

  /**
   * The fields of struct thread that the scheduler uses besides the two
   * that order its queues: the effective priority and the wakeup tick are
   * kept in maps of their own in `Sched`, keyed by tid like this record.
   */
  datatype Thread = Thread(status: Status, originalPriority: int, pml4: bool)

  /** init_thread: a BLOCKED thread whose base priority is `priority`; the rest is zeroed. */
  function InitThread(priority: int): Thread
    requires PRI_MIN <= priority <= PRI_MAX
  {
    Thread(Blocked, priority, false)
  }

  function SetStatus(threads: map<int, Thread>, t: int, st: Status): map<int, Thread> {
    if t in threads then threads[t := threads[t].(status := st)] else threads
  }

  function AsSet(s: seq<int>): set<int> {
    set x | x in s
  }

  /** Removing keys one at a time is removing them all at once. */
  lemma RemoveOneMore<V>(m: map<int, V>, gone: set<int>, x: int)
    ensures m - gone - {x} == m - (gone + {x})
  {
  }

  // ---------------------------------------------------------------------
  // Priority order: compare_ready_priority and compare_donation_priority
  // ---------------------------------------------------------------------

  function Key(m: map<int, int>, t: int): int {
    if t in m then m[t] else PRI_MIN
  }

  /**
   * compare_ready_priority and compare_donation_priority: a orders before b
   * when its priority is strictly higher. The two differ only in which
   * list_elem of the thread they are handed.
   */
  function HigherPriority(prio: map<int, int>): (int, int) -> bool {
    (a: int, b: int) => Key(prio, a) > Key(prio, b)
  }

  /**
   * The priority comparators are strict weak orders, as list_insert_ordered
   * and list_sort need, and two threads are equivalent under them exactly
   * when their priorities are equal.
   */
  lemma HigherPriorityOrder(prio: map<int, int>)
    ensures StrictWeakOrder(HigherPriority(prio))
    ensures forall a, b :: Equiv(HigherPriority(prio), a, b) <==> Key(prio, a) == Key(prio, b)
  {
    var less := HigherPriority(prio);
    forall x, y, z | Triple(x, y, z)
      ensures less(x, y) && less(y, z) ==> less(x, z)
      ensures !less(y, x) && !less(z, y) ==> !less(z, x)
    {
    }
  }

  /** A queue ordered by priority stays ordered when the priorities of other threads change. */
  lemma ReadyOrderFrame(s: seq<int>, p: map<int, int>, q: map<int, int>)
    requires Sorted(s, HigherPriority(p))
    requires forall k :: 0 <= k < |s| ==> Key(p, s[k]) == Key(q, s[k])
    ensures Sorted(s, HigherPriority(q))
  {
    forall i, j | 0 <= i < j < |s| ensures !HigherPriority(q)(s[j], s[i]) {
      assert !HigherPriority(p)(s[j], s[i]);
    }
  }

  /**
   * thread_unblock's list_insert_ordered with compare_ready_priority: the
   * queue stays in descending priority, and the new thread goes after every
   * thread of its own priority (FIFO among equals) and before every lower one.
   */
  lemma ReadyInsert(ready: seq<int>, t: int, prio: map<int, int>)
    requires Sorted(ready, HigherPriority(prio))
    ensures var r, j := InsertionOf(ready, t, HigherPriority(prio)), InsertPos(ready, t, HigherPriority(prio));
      && r == ready[..j] + [t] + ready[j..]
      && (forall k :: 0 <= k < j ==> Key(prio, ready[k]) >= Key(prio, t))
      && (forall k :: j <= k < |ready| ==> Key(prio, ready[k]) < Key(prio, t))
      && Sorted(r, HigherPriority(prio))
      && multiset(r) == multiset(ready) + multiset{t}
  {
    HigherPriorityOrder(prio);
    InsertionSorted(ready, t, HigherPriority(prio));
    InsertionPerm(ready, t, HigherPriority(prio));
  }

  /** The front of a queue ordered by priority has the highest priority in it. */
  lemma FrontIsHighest(ready: seq<int>, prio: map<int, int>)
    requires Sorted(ready, HigherPriority(prio)) && ready != []
    ensures forall x :: x in ready ==> Key(prio, x) <= Key(prio, ready[0])
  {
    forall x | x in ready ensures Key(prio, x) <= Key(prio, ready[0]) {
      var k :| 0 <= k < |ready| && ready[k] == x;
      if k > 0 {
        assert !HigherPriority(prio)(ready[k], ready[0]);
      }
    }
  }

  // ---------------------------------------------------------------------
  // The scheduler's state and its invariant
  // ---------------------------------------------------------------------

  /**
   * The globals of thread.c: the thread table, ready_list,
   * dying_threads_queue, the running thread, idle_thread, initial_thread,
   * allocate_tid's next_tid and the tick counters. `priority` and `wakeup`
   * hold each thread's effective priority and wakeup_tick.
   */
  datatype Sched = Sched(
    threads: map<int, Thread>,
    priority: map<int, int>,
    wakeup: map<int, int>,
    ready: seq<int>,
    dying: seq<int>,
    current: int,
    idle: int,
    initial: int,
    nextTid: int,
    idleTicks: int,
    kernelTicks: int,
    userTicks: int,
    threadTicks: int)

  /** The ready queue holds distinct threads, each READY or the thread that is yielding. */
  ghost predicate ReadyQueue(q: seq<int>, threads: map<int, Thread>, current: int) {
    && Distinct(q)
    && (forall k :: 0 <= k < |q| ==> q[k] in threads && (threads[q[k]].status == Ready || q[k] == current))
  }

  /**
   * What holds between operations and also while one is switching threads:
   * every queued or named thread exists, the queues hold distinct threads of
   * the right status, the ready queue is in descending priority, at most the
   * current thread runs, and every READY or DYING thread is queued or one of
   * the threads the scheduler names directly. The current thread may sit in
   * the ready queue here only because thread_yield has just put it there.
   */
  ghost predicate Common(s: Sched) {
    && s.current in s.threads && s.initial in s.threads
    && (s.idle != NO_THREAD ==> s.idle in s.threads && s.threads[s.idle].status != Dying)
    && (forall t :: t in s.threads ==> 0 < t < s.nextTid)
    && ReadyQueue(s.ready, s.threads, s.current)
    && Sorted(s.ready, HigherPriority(s.priority))
    && Distinct(s.dying)
    && (forall k :: 0 <= k < |s.dying| ==>
          s.dying[k] in s.threads && s.threads[s.dying[k]].status == Dying && s.dying[k] != s.initial && s.dying[k] != s.current)
    && (forall t :: t in s.threads && s.threads[t].status == Running ==> t == s.current)
    && (forall t :: t in s.threads && s.threads[t].status == Ready ==> t in s.ready || t == s.idle || t == s.current)
    && (forall t :: t in s.threads && s.threads[t].status == Dying ==> t in s.dying || t == s.initial || t == s.current)
  }

  /** The invariant between operations: the current thread is the one RUNNING thread, and it is not queued. */
  ghost predicate Inv(s: Sched) {
    Common(s) && s.threads[s.current].status == Running && s.current !in s.ready
  }

  /**
   * What schedule() needs: the current thread's new status is set, it is in
   * the ready queue exactly when it yielded and is not the idle thread, and
   * there is a thread to run next.
   */
  ghost predicate PreSchedule(s: Sched) {
    && Common(s) && s.threads[s.current].status != Running
    && (s.current in s.ready <==> s.threads[s.current].status == Ready && s.current != s.idle)
    && (s.ready != [] || s.idle != NO_THREAD)
  }

  /** thread_init: the running code becomes the "main" thread, tid 1, at PRI_DEFAULT. */
  function Boot(): Sched {
    Sched(map[1 := InitThread(PRI_DEFAULT).(status := Running)], map[1 := PRI_DEFAULT], map[1 := 0],
          [], [], 1, NO_THREAD, 1, 2, 0, 0, 0, 0)
  }

  lemma BootInv()
    ensures Inv(Boot()) && Key(Boot().priority, Boot().current) == PRI_DEFAULT
  {
  }

  // ---------------------------------------------------------------------
  // Steps
  // ---------------------------------------------------------------------

  /** thread_unblock(t): t becomes READY and joins the ready queue by priority. */
  function UnblockStep(s: Sched, t: int): Sched {
    s.(threads := SetStatus(s.threads, t, Ready), ready := InsertionOf(s.ready, t, HigherPriority(s.priority)))
  }

  /** next_thread_to_run: the front of the ready queue, or the idle thread when it is empty. */
  function NextToRun(s: Sched): int {
    if s.ready == [] then s.idle else s.ready[0]
  }

  /**
   * schedule(): the next thread runs with a fresh time slice; the thread
   * leaving the CPU is queued for destruction when it is DYING, is not the
   * thread chosen again and is not the initial thread.
   */
  function ScheduleStep(s: Sched): Sched {
    SwitchTo(s.(ready := if s.ready == [] then [] else s.ready[1..]), NextToRun(s))
  }

  /** The part of schedule() after next_thread_to_run has chosen `next`. */
  function SwitchTo(s: Sched, next: int): Sched {
    var leaving := s.current != next && s.current in s.threads && s.threads[s.current].status == Dying && s.current != s.initial;
    s.(threads := SetStatus(s.threads, next, Running),
       dying := if leaving then s.dying + [s.current] else s.dying,
       current := next, threadTicks := 0)
  }

  /** do_schedule's loop: every thread in the dying queue is freed. */
  function FreeDying(s: Sched): Sched {
    var d := AsSet(s.dying);
    s.(threads := s.threads - d, priority := s.priority - d, wakeup := s.wakeup - d, dying := [])
  }

  function WithCurrentStatus(s: Sched, st: Status): Sched {
    s.(threads := SetStatus(s.threads, s.current, st))
  }

  /** do_schedule(status) up to its call of schedule(). */
  function Prep(s: Sched, st: Status): Sched {
    WithCurrentStatus(FreeDying(s), st)
  }

  /** do_schedule(status). */
  function DoScheduleStep(s: Sched, st: Status): Sched {
    ScheduleStep(Prep(s, st))
  }

  /** thread_block: the current thread becomes BLOCKED and another is scheduled. */
  function BlockStep(s: Sched): Sched {
    ScheduleStep(WithCurrentStatus(s, Blocked))
  }

  /** thread_yield's list_insert_ordered: the current thread rejoins the ready queue unless it is the idle thread. */
  function Requeue(s: Sched): Sched {
    if s.current != s.idle then s.(ready := InsertionOf(s.ready, s.current, HigherPriority(s.priority))) else s
  }

  /** thread_yield. */
  function YieldStep(s: Sched): Sched {
    DoScheduleStep(Requeue(s), Ready)
  }

  /** thread_exit, without process_exit: do_schedule(THREAD_DYING). */
  function ExitStep(s: Sched): Sched {
    DoScheduleStep(s, Dying)
  }

  /** preemption_by_priority's test: the front of the ready queue has a strictly higher priority than the running thread. */
  function ShouldPreempt(s: Sched): bool {
    s.ready != [] && Key(s.priority, s.current) < Key(s.priority, s.ready[0])
  }

  /** preemption_by_priority. */
  function PreemptStep(s: Sched): Sched {
    if ShouldPreempt(s) then YieldStep(s) else s
  }

  /** thread_set_priority's bookkeeping: the base priority becomes `base`, the effective one `effective`. */
  function Reprioritize(s: Sched, base: int, effective: int): Sched {
    if s.current in s.threads then
      s.(threads := s.threads[s.current := s.threads[s.current].(originalPriority := base)],
         priority := s.priority[s.current := effective])
    else s
  }

  /**
   * thread_set_priority(base). `effective` is what recalculate_priority
   * makes of it: the highest of the base priority and the donations.
   */
  function SetPriorityStep(s: Sched, base: int, effective: int): Sched {
    PreemptStep(Reprioritize(s, base, effective))
  }

  /** thread_create's bookkeeping once its page is allocated: a new BLOCKED thread with the next tid. */
  function Admit(s: Sched, priority: int): Sched
    requires PRI_MIN <= priority <= PRI_MAX
  {
    s.(threads := s.threads[s.nextTid := InitThread(priority)],
       priority := s.priority[s.nextTid := priority],
       wakeup := s.wakeup[s.nextTid := 0],
       nextTid := s.nextTid + 1)
  }

  /**
   * thread_create: TID_ERROR when palloc_get_page fails; otherwise the new
   * thread is admitted, unblocked, and preempts the caller when it outranks it.
   */
  function CreateStep(s: Sched, priority: int, pageOk: bool): (Sched, int)
    requires PRI_MIN <= priority <= PRI_MAX
  {
    if !pageOk then (s, TID_ERROR)
    else (PreemptStep(UnblockStep(Admit(s, priority), s.nextTid)), s.nextTid)
  }

  /**
   * thread_tick: one tick is charged to the idle thread, a user process or
   * the kernel; the result asks for a yield once the time slice is used up.
   */
  function TickStep(s: Sched, userprog: bool): (Sched, bool) {
    var s1 :=
      if s.current == s.idle then s.(idleTicks := s.idleTicks + 1)
      else if userprog && s.current in s.threads && s.threads[s.current].pml4 then s.(userTicks := s.userTicks + 1)
      else s.(kernelTicks := s.kernelTicks + 1);
    var s2 := s1.(threadTicks := s1.threadTicks + 1);
    (s2, s2.threadTicks >= TIME_SLICE)
  }

  // ---------------------------------------------------------------------
  // The steps keep the invariant
  // ---------------------------------------------------------------------

  /** thread_unblock keeps the invariant, and the thread is READY and queued by priority. */
  lemma UnblockKeeps(s: Sched, t: int)
    requires Inv(s) && t in s.threads && s.threads[t].status == Blocked
    ensures Inv(UnblockStep(s, t))
    ensures UnblockStep(s, t).threads[t].status == Ready && t in UnblockStep(s, t).ready
    ensures multiset(UnblockStep(s, t).ready) == multiset(s.ready) + multiset{t}
  {
    var th := SetStatus(s.threads, t, Ready);
    ReadyInsert(s.ready, t, s.priority);
    var j := InsertPos(s.ready, t, HigherPriority(s.priority));
    assert t !in s.ready;
    assert ReadyQueue(s.ready, th, s.current);
    ReadyQueueInsert(s.ready, j, t, th, s.current);
  }

  /** Putting a READY thread into the ready queue keeps it a queue of distinct READY threads. */
  lemma ReadyQueueInsert(q: seq<int>, j: nat, t: int, threads: map<int, Thread>, current: int)
    requires ReadyQueue(q, threads, current) && j <= |q|
    requires t !in q && t in threads && (threads[t].status == Ready || t == current)
    ensures ReadyQueue(q[..j] + [t] + q[j..], threads, current)
  {
    var r := q[..j] + [t] + q[j..];
    InsertionAt(q, j, t);
    DistinctInsert(q, j, t);
    forall k | 0 <= k < |r| ensures r[k] in threads && (threads[r[k]].status == Ready || r[k] == current) {
      if k != j {
        assert r[k] in q;
      }
    }
  }

  /** Putting a new element into a queue of distinct elements keeps them distinct. */
  lemma DistinctInsert(s: seq<int>, j: nat, x: int)
    requires Distinct(s) && x !in s && j <= |s|
    ensures Distinct(s[..j] + [x] + s[j..])
  {
    var r := s[..j] + [x] + s[j..];
    InsertionAt(s, j, x);
    forall a, b | 0 <= a < b < |r| ensures r[a] != r[b] {
      if a < j && b < j {
      } else if a < j && b == j {
        assert r[a] == s[a];
      } else if a < j {
        assert r[a] == s[a] && r[b] == s[b - 1];
      } else if a == j {
        assert r[b] == s[b - 1];
      } else {
        assert r[a] == s[a - 1] && r[b] == s[b - 1];
      }
    }
  }

  /** Freeing the dying queue keeps everything else the invariant asks for. */
  lemma FreeDyingKeeps(s: Sched)
    requires Common(s)
    ensures Common(FreeDying(s))
    ensures forall t :: t in FreeDying(s).threads ==> t in s.threads && FreeDying(s).threads[t] == s.threads[t]
    ensures forall t :: t in s.threads && t !in s.dying ==> t in FreeDying(s).threads
  {
    var f := FreeDying(s);
    var D := AsSet(s.dying);
    assert forall k :: 0 <= k < |s.ready| ==> s.ready[k] !in D;
    forall k | 0 <= k < |s.ready| ensures Key(s.priority, s.ready[k]) == Key(f.priority, s.ready[k]) {
      assert s.ready[k] in f.threads;
    }
    ReadyOrderFrame(s.ready, s.priority, f.priority);
  }

  /**
   * Setting the running thread's new status leads to a state schedule()
   * accepts, when it was queued exactly if it yields and there is a thread
   * to run next.
   */
  lemma CurrentStatusPre(s: Sched, st: Status)
    requires Common(s) && s.threads[s.current].status == Running && st != Running
    requires s.current in s.ready <==> st == Ready && s.current != s.idle
    requires st == Dying ==> s.current != s.idle
    requires s.ready != [] || s.idle != NO_THREAD
    ensures PreSchedule(WithCurrentStatus(s, st))
  {
  }

  /** schedule() ends in a state that keeps the invariant. */
  lemma ScheduleKeeps(s: Sched)
    requires PreSchedule(s)
    ensures NextToRun(s) in s.threads
    ensures Inv(ScheduleStep(s))
  {
    ScheduleReady(s);
    ScheduleReadyQueued(s);
    ScheduleDying(s);
  }

  /** The ready queue after schedule(): the rest of it, still in priority order, without the thread now running. */
  lemma ScheduleReady(s: Sched)
    requires PreSchedule(s)
    ensures NextToRun(s) in s.threads
    ensures var s' := ScheduleStep(s);
      && ReadyQueue(s'.ready, s'.threads, s'.current)
      && Sorted(s'.ready, HigherPriority(s'.priority))
      && s'.current !in s'.ready
      && s'.threads[s'.current].status == Running
  {
    var next := NextToRun(s);
    var s' := ScheduleStep(s);
    assert forall k :: 0 <= k < |s'.ready| ==> s'.ready[k] != next && s'.ready[k] == s.ready[k + 1];
    if s.ready != [] {
      SortedTail(s.ready, HigherPriority(s.priority));
    }
  }

  /** After schedule(), every READY thread other than the idle thread is still in the ready queue. */
  lemma ScheduleReadyQueued(s: Sched)
    requires PreSchedule(s)
    ensures var s' := ScheduleStep(s);
      forall t :: t in s'.threads && s'.threads[t].status == Ready ==> t in s'.ready || t == s'.idle || t == s'.current
  {
    var s' := ScheduleStep(s);
    forall t | t in s'.threads && s'.threads[t].status == Ready
      ensures t in s'.ready || t == s'.idle || t == s'.current
    {
      if t in s.ready && t != s.idle {
        var i :| 0 <= i < |s.ready| && s.ready[i] == t;
        assert i > 0 && s'.ready[i - 1] == t;
      }
    }
  }

  /** The dying queue after schedule(). */
  lemma ScheduleDying(s: Sched)
    requires PreSchedule(s)
    ensures NextToRun(s) in s.threads && NextToRun(s) !in s.dying
    ensures var s' := ScheduleStep(s);
      && Distinct(s'.dying)
      && (forall k :: 0 <= k < |s'.dying| ==>
            s'.dying[k] in s'.threads && s'.threads[s'.dying[k]].status == Dying && s'.dying[k] != s'.initial && s'.dying[k] != s'.current)
      && (forall t :: t in s'.threads && s'.threads[t].status == Dying ==> t in s'.dying || t == s'.initial || t == s'.current)
  {
    var next := NextToRun(s);
    assert next in s.ready ==> s.threads[next].status == Ready || next == s.current;
    assert next !in s.dying;
  }

  /** thread_yield reaches schedule() in a state it accepts. */
  lemma YieldReady(s: Sched)
    requires Inv(s)
    ensures PreSchedule(Prep(Requeue(s), Ready))
  {
    var q := Requeue(s);
    if s.current != s.idle {
      ReadyInsert(s.ready, s.current, s.priority);
      var j := InsertPos(s.ready, s.current, HigherPriority(s.priority));
      ReadyQueueInsert(s.ready, j, s.current, s.threads, s.current);
      InsertionAt(s.ready, j, s.current);
      assert forall t :: t in s.ready ==> t in q.ready;
      assert Common(q);
    }
    FreeDyingKeeps(q);
    CurrentStatusPre(FreeDying(q), Ready);
  }

  /** thread_exit reaches schedule() in a state it accepts. */
  lemma ExitReady(s: Sched)
    requires Inv(s) && s.current != s.idle && (s.ready != [] || s.idle != NO_THREAD)
    ensures PreSchedule(Prep(s, Dying))
  {
    FreeDyingKeeps(s);
    CurrentStatusPre(FreeDying(s), Dying);
  }

  /** thread_block keeps the invariant; the caller stays BLOCKED and off the CPU unless it is the idle thread with nothing ready. */
  lemma BlockKeeps(s: Sched)
    requires Inv(s) && (s.ready != [] || s.idle != NO_THREAD)
    ensures PreSchedule(WithCurrentStatus(s, Blocked))
    ensures Inv(BlockStep(s))
    ensures BlockStep(s).current == s.current <==> s.ready == [] && s.current == s.idle
    ensures BlockStep(s).current != s.current ==> BlockStep(s).threads[s.current].status == Blocked
  {
    CurrentStatusPre(s, Blocked);
    ScheduleKeeps(WithCurrentStatus(s, Blocked));
  }

  /** thread_yield keeps the invariant; the yielding thread runs again or waits in the ready queue. */
  lemma YieldKeeps(s: Sched)
    requires Inv(s)
    ensures Inv(YieldStep(s))
    ensures s.current != s.idle ==> YieldStep(s).current == s.current || s.current in YieldStep(s).ready
  {
    YieldReady(s);
    var p := Prep(Requeue(s), Ready);
    ScheduleKeeps(p);
    if s.current != s.idle && NextToRun(p) != s.current {
      assert p.ready[0] != s.current;
      assert s.current in p.ready[1..];
    }
  }

  /**
   * thread_exit keeps the invariant; the old dying queue is freed, and the
   * exiting thread waits in the new one unless it is the initial thread.
   */
  lemma ExitKeeps(s: Sched)
    requires Inv(s) && s.current != s.idle && (s.ready != [] || s.idle != NO_THREAD)
    ensures Inv(ExitStep(s))
    ensures forall t :: t in s.dying ==> t !in ExitStep(s).threads
    ensures ExitStep(s).dying == if s.current != s.initial then [s.current] else []
  {
    ExitReady(s);
    var p := Prep(s, Dying);
    ScheduleKeeps(p);
    assert NextToRun(p) != s.current;
  }

  /** preemption_by_priority yields exactly when some ready thread outranks the running one. */
  lemma PreemptIff(s: Sched)
    requires Inv(s)
    ensures ShouldPreempt(s) <==> exists t :: t in s.ready && Key(s.priority, t) > Key(s.priority, s.current)
  {
    if s.ready != [] {
      FrontIsHighest(s.ready, s.priority);
    }
  }

  /** preemption_by_priority keeps the invariant, and it changes nothing when no ready thread outranks the running one. */
  lemma PreemptKeeps(s: Sched)
    requires Inv(s)
    ensures Inv(PreemptStep(s))
    ensures !ShouldPreempt(s) ==> PreemptStep(s) == s
  {
    if ShouldPreempt(s) {
      YieldKeeps(s);
    }
  }

  /** The running thread's priorities may change: it is not in the ready queue. */
  lemma ReprioritizeKeeps(s: Sched, base: int, effective: int)
    requires Inv(s)
    ensures Inv(Reprioritize(s, base, effective))
  {
    var r := Reprioritize(s, base, effective);
    forall k | 0 <= k < |s.ready| ensures Key(s.priority, s.ready[k]) == Key(r.priority, s.ready[k]) {
      assert s.ready[k] != s.current;
    }
    ReadyOrderFrame(s.ready, s.priority, r.priority);
  }

  /** thread_set_priority keeps the invariant, and the running thread's base priority is the new one. */
  lemma SetPriorityKeeps(s: Sched, base: int, effective: int)
    requires Inv(s)
    ensures Inv(SetPriorityStep(s, base, effective))
    ensures SetPriorityStep(s, base, effective).threads[s.current].originalPriority == base
    ensures Key(SetPriorityStep(s, base, effective).priority, s.current) == effective
  {
    ReprioritizeKeeps(s, base, effective);
    var r := Reprioritize(s, base, effective);
    PreemptKeeps(r);
    if ShouldPreempt(r) {
      YieldReady(r);
    }
  }

  /**
   * thread_set_priority gives up the CPU when the new effective priority is
   * below that of a ready thread.
   */
  lemma SetPriorityYields(s: Sched, base: int, effective: int, t: int)
    requires Inv(s)
    requires t in s.ready && Key(s.priority, t) > effective
    ensures SetPriorityStep(s, base, effective).current != s.current
  {
    ReprioritizeKeeps(s, base, effective);
    var r := Reprioritize(s, base, effective);
    assert t != s.current;
    assert Key(r.priority, t) > Key(r.priority, r.current);
    PreemptIff(r);
    YieldLeaves(r);
  }

  /** A yield that preemption_by_priority asks for hands the CPU to another thread. */
  lemma YieldLeaves(s: Sched)
    requires Inv(s) && ShouldPreempt(s)
    ensures YieldStep(s).current != s.current
  {
    YieldReady(s);
    var q := Requeue(s);
    var p := Prep(q, Ready);
    if s.current != s.idle {
      ReadyInsert(s.ready, s.current, s.priority);
      var j := InsertPos(s.ready, s.current, HigherPriority(s.priority));
      assert !HigherPriority(s.priority)(s.current, s.ready[0]);
      assert j > 0;
      InsertionAt(s.ready, j, s.current);
      assert q.ready[0] == s.ready[0];
    }
    assert p.ready[0] == s.ready[0];
  }

  /** Admitting a new thread keeps the invariant: its tid is not in use. */
  lemma AdmitKeeps(s: Sched, priority: int)
    requires Inv(s) && PRI_MIN <= priority <= PRI_MAX
    ensures Inv(Admit(s, priority))
    ensures s.nextTid !in s.threads && s.nextTid in Admit(s, priority).threads
  {
    var a := Admit(s, priority);
    forall k | 0 <= k < |s.ready| ensures Key(s.priority, s.ready[k]) == Key(a.priority, s.ready[k]) {
      assert s.ready[k] in s.threads;
    }
    ReadyOrderFrame(s.ready, s.priority, a.priority);
  }

  /**
   * thread_create keeps the invariant; it returns TID_ERROR exactly when no
   * page is available, and then changes nothing.
   */
  lemma CreateKeeps(s: Sched, priority: int, pageOk: bool)
    requires Inv(s) && PRI_MIN <= priority <= PRI_MAX
    ensures var (s', tid) := CreateStep(s, priority, pageOk);
      && Inv(s')
      && (tid == TID_ERROR <==> !pageOk)
      && (!pageOk ==> s' == s)
  {
    if pageOk {
      AdmitKeeps(s, priority);
      UnblockKeeps(Admit(s, priority), s.nextTid);
      PreemptKeeps(UnblockStep(Admit(s, priority), s.nextTid));
    }
  }

  /**
   * A thread that thread_create makes gets the next tid, never used before,
   * and starts with both priorities as given.
   */
  lemma CreateFresh(s: Sched, priority: int)
    requires Inv(s) && PRI_MIN <= priority <= PRI_MAX
    ensures var (s', tid) := CreateStep(s, priority, true);
      && tid == s.nextTid && tid !in s.threads && s'.nextTid == tid + 1
      && tid in s'.threads && s'.threads[tid].originalPriority == priority && Key(s'.priority, tid) == priority
  {
    AdmitKeeps(s, priority);
    var s1 := Admit(s, priority);
    UnblockKeeps(s1, s.nextTid);
    PreemptThreadKept(UnblockStep(s1, s.nextTid), s.nextTid);
  }

  /** A thread created with a priority strictly above its creator's takes the CPU at once. */
  lemma CreatePreempts(s: Sched, priority: int)
    requires Inv(s) && PRI_MIN <= priority <= PRI_MAX
    requires priority > Key(s.priority, s.current)
    ensures CreateStep(s, priority, true).0.current != s.current
  {
    AdmitKeeps(s, priority);
    var s1 := Admit(s, priority);
    var tid := s.nextTid;
    UnblockKeeps(s1, tid);
    var u := UnblockStep(s1, tid);
    assert s.current != tid;
    assert Key(u.priority, tid) > Key(u.priority, u.current);
    PreemptIff(u);
    YieldLeaves(u);
  }

  /** preemption_by_priority frees no READY thread and changes no priority. */
  lemma PreemptThreadKept(s: Sched, t: int)
    requires Inv(s) && t in s.ready
    ensures t in PreemptStep(s).threads && Key(PreemptStep(s).priority, t) == Key(s.priority, t)
    ensures PreemptStep(s).threads[t].originalPriority == s.threads[t].originalPriority
  {
    if ShouldPreempt(s) {
      YieldReady(s);
      assert t !in s.dying;
    }
  }

  /** thread_tick keeps the invariant and charges the tick to exactly one of the three counters. */
  lemma TickKeeps(s: Sched, userprog: bool)
    requires Inv(s)
    ensures var (s', yieldNow) := TickStep(s, userprog);
      && Inv(s')
      && s'.idleTicks + s'.kernelTicks + s'.userTicks == s.idleTicks + s.kernelTicks + s.userTicks + 1
      && (s'.idleTicks == s.idleTicks + 1 <==> s.current == s.idle)
      && (s'.userTicks == s.userTicks + 1 <==> s.current != s.idle && userprog && s.threads[s.current].pml4)
      && s'.threadTicks == s.threadTicks + 1
      && (yieldNow <==> s.threadTicks + 1 >= TIME_SLICE)
  {
  }

  // ---------------------------------------------------------------------
  // The scheduler's globals and the functions of thread.c
  // ---------------------------------------------------------------------

  /** The globals of thread.c, changed in place by its functions. */
  class Scheduler {
    var threads: map<int, Thread>
    var priority: map<int, int>
    var wakeup: map<int, int>
    var ready: seq<int>
    var dying: seq<int>
    var current: int
    var idle: int
    const initial: int
    var nextTid: int
    var idleTicks: int
    var kernelTicks: int
    var userTicks: int
    var threadTicks: int
    /** Whether the kernel is built with USERPROG, where a thread with a page map runs a user process. */
    const userprog: bool

    ghost function State(): Sched
      reads this
    {
      Sched(threads, priority, wakeup, ready, dying, current, idle, initial, nextTid, idleTicks, kernelTicks, userTicks, threadTicks)
    }

    ghost predicate Valid()
      reads this
    {
      Inv(State())
    }

    /** thread_init: the running code becomes the initial thread, RUNNING at PRI_DEFAULT with the first tid, 1. */
    constructor (userprog: bool)
      ensures State() == Boot() && Valid() && this.userprog == userprog
    {
      threads := map[1 := InitThread(PRI_DEFAULT).(status := Running)];
      priority := map[1 := PRI_DEFAULT];
      wakeup := map[1 := 0];
      ready := [];
      dying := [];
      current := 1;
      idle := NO_THREAD;
      initial := 1;
      nextTid := 2;
      idleTicks, kernelTicks, userTicks, threadTicks := 0, 0, 0, 0;
      this.userprog := userprog;
      new;
      BootInv();
    }

    /** allocate_tid: tids are handed out in increasing order and never reused. */
    method AllocateTid() returns (tid: int)
      requires 0 < nextTid && forall t :: t in threads ==> t < nextTid
      modifies this`nextTid
      ensures tid == old(nextTid) && nextTid == tid + 1
      ensures 0 < tid && tid !in threads && forall t :: t in threads ==> t < tid
    {
      tid := nextTid;
      nextTid := nextTid + 1;
    }

    /**
     * thread_unblock: t must be a BLOCKED thread; it becomes READY and joins
     * the ready queue by priority, with no preemption. UnblockKeeps shows
     * that this keeps the invariant.
     */
    method Unblock(t: int)
      requires t in threads && threads[t].status == Blocked
      modifies this`threads, this`ready
      ensures State() == UnblockStep(old(State()), t)
    {
      threads := threads[t := threads[t].(status := Ready)];
      ready := InsertionOf(ready, t, HigherPriority(priority));
    }

    /** next_thread_to_run: the front of the ready queue, which has the highest priority there, or the idle thread. */
    method NextThreadToRun() returns (next: int)
      requires PreSchedule(State())
      modifies this`ready
      ensures next == NextToRun(old(State())) && next in threads
      ensures ready == if old(ready) == [] then [] else old(ready)[1..]
      ensures old(ready) != [] ==> forall t :: t in old(ready) ==> Key(priority, t) <= Key(priority, next)
    {
      ScheduleKeeps(State());
      if ready == [] {
        next := idle;
      } else {
        FrontIsHighest(ready, priority);
        next := ready[0];
        ready := ready[1..];
      }
    }

    /** schedule(). */
    method Schedule()
      requires PreSchedule(State())
      modifies this`threads, this`ready, this`threadTicks, this`dying, this`current
      ensures State() == ScheduleStep(old(State())) && Inv(ScheduleStep(old(State())))
    {
      ghost var s0 := State();
      var next := NextThreadToRun();
      SwitchThreads(next);
      ScheduleKeeps(s0);
    }

    /** The rest of schedule(): `next` runs with a fresh slice, and a dying thread that leaves the CPU is queued for destruction. */
    method SwitchThreads(next: int)
      requires current in threads && next in threads
      modifies this`threads, this`threadTicks, this`dying, this`current
      ensures State() == SwitchTo(old(State()), next)
    {
      threads := threads[next := threads[next].(status := Running)];
      threadTicks := 0;
      if current != next {
        if threads[current].status == Dying && current != initial {
          dying := dying + [current];
        }
        current := next;
      }
    }

    /** do_schedule's loop: pops each thread off the dying queue and frees its page. */
    method FreeDyingThreads()
      modifies this`threads, this`priority, this`wakeup, this`dying
      ensures State() == FreeDying(old(State()))
    {
      ghost var s0 := State();
      ghost var k := 0;
      ghost var freed: set<int> := {};
      while dying != []
        modifies this`threads, this`priority, this`wakeup, this`dying
        invariant 0 <= k <= |s0.dying| && dying == s0.dying[k..] && freed == AsSet(s0.dying[..k])
        invariant threads == s0.threads - freed && priority == s0.priority - freed && wakeup == s0.wakeup - freed
        decreases |dying|
      {
        var victim := dying[0];
        RemoveOneMore(s0.threads, freed, victim);
        RemoveOneMore(s0.priority, freed, victim);
        RemoveOneMore(s0.wakeup, freed, victim);
        dying := dying[1..];
        threads := threads - {victim};
        priority := priority - {victim};
        wakeup := wakeup - {victim};
        assert AsSet(s0.dying[..k + 1]) == freed + {victim} by {
          assert s0.dying[..k + 1] == s0.dying[..k] + [victim];
        }
        freed := freed + {victim};
        k := k + 1;
      }
      assert s0.dying[..k] == s0.dying;
    }

    /** do_schedule(status): frees every thread in the dying queue, sets the current thread's status, and schedules. */
    method DoSchedule(status: Status)
      requires current in threads && threads[current].status == Running
      requires PreSchedule(Prep(State(), status))
      modifies this
      ensures State() == DoScheduleStep(old(State()), status) && Valid()
    {
      ghost var s0 := State();
      FreeDyingThreads();
      threads := SetStatus(threads, current, status);
      assert State() == Prep(s0, status);
      Schedule();
    }

    /** thread_block: the current thread becomes BLOCKED until thread_unblock. */
    method Block()
      requires Valid() && (ready != [] || idle != NO_THREAD)
      modifies this
      ensures State() == BlockStep(old(State())) && Valid()
    {
      BlockKeeps(State());
      threads := threads[current := threads[current].(status := Blocked)];
      Schedule();
    }

    /** thread_yield: the current thread rejoins the ready queue, unless it is the idle thread, and another is scheduled. */
    method Yield()
      requires Valid()
      modifies this
      ensures State() == YieldStep(old(State())) && Valid()
    {
      YieldReady(State());
      if current != idle {
        ready := InsertionOf(ready, current, HigherPriority(priority));
      }
      DoSchedule(Ready);
    }

    /** thread_exit, without process_exit: the thread becomes DYING and its page is freed by a later do_schedule. */
    method Exit()
      requires Valid() && current != idle && (ready != [] || idle != NO_THREAD)
      modifies this
      ensures State() == ExitStep(old(State())) && Valid()
    {
      ExitReady(State());
      DoSchedule(Dying);
    }

    /** preemption_by_priority: yield when the front of the ready queue outranks the running thread. */
    method PreemptByPriority()
      requires Valid()
      modifies this
      ensures State() == PreemptStep(old(State())) && Valid()
    {
      PreemptKeeps(State());
      if ready != [] && Key(priority, current) < Key(priority, ready[0]) {
        Yield();
      }
    }

    /**
     * thread_set_priority(base). recalculate_priority belongs to the
     * synchronisation code; `effective` is the priority it computes, which
     * is at least the base priority.
     */
    method SetPriority(base: int, effective: int)
      requires Valid() && effective >= base
      modifies this
      ensures State() == SetPriorityStep(old(State()), base, effective) && Valid()
    {
      ReprioritizeKeeps(State(), base, effective);
      threads := threads[current := threads[current].(originalPriority := base)];
      priority := priority[current := effective];
      PreemptByPriority();
    }

    /** thread_get_priority: the running thread's effective priority. */
    method GetPriority() returns (p: int)
      requires Valid()
      ensures p == Key(priority, current)
    {
      p := Key(priority, current);
    }

    /**
     * thread_create(priority), with `pageOk` saying whether palloc_get_page
     * found a page. The table is keyed by tid, so `AdmitThread` takes the tid
     * before writing the new thread's fields; the state it leaves is the one
     * init_thread followed by allocate_tid leaves.
     */
    method Create(prio: int, pageOk: bool) returns (tid: int)
      requires Valid() && PRI_MIN <= prio <= PRI_MAX
      modifies this
      ensures (State(), tid) == CreateStep(old(State()), prio, pageOk) && Valid()
    {
      if !pageOk {
        return TID_ERROR;
      }
      AdmitKeeps(State(), prio);
      tid := AdmitThread(prio);
      UnblockKeeps(State(), tid);
      Unblock(tid);
      PreemptByPriority();
    }

    /** init_thread on the new page, then allocate_tid: the new thread is BLOCKED at `prio` under the next tid. */
    method AdmitThread(prio: int) returns (tid: int)
      requires PRI_MIN <= prio <= PRI_MAX
      requires 0 < nextTid && forall t :: t in threads ==> t < nextTid
      modifies this`threads, this`priority, this`wakeup, this`nextTid
      ensures State() == Admit(old(State()), prio) && tid == old(nextTid)
    {
      tid := AllocateTid();
      threads := threads[tid := InitThread(prio)];
      priority := priority[tid := prio];
      wakeup := wakeup[tid := 0];
    }

    /** thread_tick: charges the tick and reports whether the time slice is used up (intr_yield_on_return). */
    method Tick() returns (yieldOnReturn: bool)
      requires Valid()
      modifies this`idleTicks, this`kernelTicks, this`userTicks, this`threadTicks
      ensures (State(), yieldOnReturn) == TickStep(old(State()), userprog) && Valid()
    {
      if current == idle {
        idleTicks := idleTicks + 1;
      } else if userprog && threads[current].pml4 {
        userTicks := userTicks + 1;
      } else {
        kernelTicks := kernelTicks + 1;
      }
      threadTicks := threadTicks + 1;
      yieldOnReturn := threadTicks >= TIME_SLICE;
    }

    /** The first statement of idle(): the thread running it becomes the idle thread. */
    method RegisterIdle()
      requires Valid() && idle == NO_THREAD
      modifies this`idle
      ensures idle == old(current) && Valid()
    {
      idle := current;
    }

    /** timer_sleep's `thread_current()->wakeup_tick = ...`. */
    method SetWakeup(tick: int)
      requires Valid()
      modifies this`wakeup
      ensures wakeup == old(wakeup)[current := tick] && Valid()
    {
      wakeup := wakeup[current := tick];
    }
  }
}
