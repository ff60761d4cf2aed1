/**
 * The timer of devices/timer.c: the tick counter, the list of sleeping
 * threads kept in order of their wakeup ticks, timer_sleep, the timer
 * interrupt that wakes the threads whose tick has come, and the conversion
 * of real time into ticks.
 *
 * The 8254 programming, the calibration of loops_per_tick and busy waiting
 * are not modelled; TIMER_FREQ comes from devices/timer.h, which is not part
 * of this model, and is a constant of the timer within the bounds timer.c
 * checks at compile time.
 */
module Timer {
  import opened ListSpec
  import opened Threads

  /** The bounds on TIMER_FREQ that timer.c enforces with #error. */
  const FREQ_MIN: int := 19
  const FREQ_MAX: int := 1000

  // ---------------------------------------------------------------------
  // compare_tick and the sleep list
  // ---------------------------------------------------------------------

  /** compare_tick: a orders before b when it wakes strictly earlier. */
  function EarlierWakeup(w: map<int, int>): (int, int) -> bool {
    (a: int, b: int) => Key(w, a) < Key(w, b)
  }

  /** compare_tick is a strict weak order; two threads are equivalent under it exactly when they wake at the same tick. */
  lemma EarlierWakeupOrder(w: map<int, int>)
    ensures StrictWeakOrder(EarlierWakeup(w))
    ensures forall a, b :: Equiv(EarlierWakeup(w), a, b) <==> Key(w, a) == Key(w, b)
  {
    var less := EarlierWakeup(w);
    forall x, y, z | Triple(x, y, z)
      ensures less(x, y) && less(y, z) ==> less(x, z)
      ensures !less(y, x) && !less(z, y) ==> !less(z, x)
    {
    }
  }

  /** A list ordered by wakeup tick stays ordered when the ticks of threads not in it change. */
  lemma SleepOrderFrame(s: seq<int>, w: map<int, int>, v: map<int, int>)
    requires Sorted(s, EarlierWakeup(w))
    requires forall k :: 0 <= k < |s| ==> Key(w, s[k]) == Key(v, s[k])
    ensures Sorted(s, EarlierWakeup(v))
  {
    forall i, j | 0 <= i < j < |s| ensures !EarlierWakeup(v)(s[j], s[i]) {
      assert !EarlierWakeup(w)(s[j], s[i]);
    }
  }

  /**
   * timer_sleep's list_insert_ordered with compare_tick: the list stays in
   * ascending wakeup order, and the new sleeper goes after every sleeper
   * due at the same tick or earlier and before every later one.
   */
  lemma SleepInsert(sleep: seq<int>, t: int, w: map<int, int>)
    requires Sorted(sleep, EarlierWakeup(w))
    ensures var r, j := InsertionOf(sleep, t, EarlierWakeup(w)), InsertPos(sleep, t, EarlierWakeup(w));
      && r == sleep[..j] + [t] + sleep[j..]
      && (forall k :: 0 <= k < j ==> Key(w, sleep[k]) <= Key(w, t))
      && (forall k :: j <= k < |sleep| ==> Key(w, sleep[k]) > Key(w, t))
      && Sorted(r, EarlierWakeup(w))
      && multiset(r) == multiset(sleep) + multiset{t}
  {
    EarlierWakeupOrder(w);
    InsertionSorted(sleep, t, EarlierWakeup(w));
    InsertionPerm(sleep, t, EarlierWakeup(w));
  }

  /**
   * The sleep list holds distinct BLOCKED threads, none of them the idle
   * thread, in ascending order of wakeup tick.
   */
  ghost predicate SleepQueue(sleep: seq<int>, s: Sched) {
    && Distinct(sleep)
    && (forall k :: 0 <= k < |sleep| ==> sleep[k] in s.threads && s.threads[sleep[k]].status == Blocked && sleep[k] != s.idle)
    && Sorted(sleep, EarlierWakeup(s.wakeup))
  }

  // ---------------------------------------------------------------------
  // Which sleepers are due
  // ---------------------------------------------------------------------

  /** The number of sleepers at the front of the list whose wakeup tick is at most `now`. */
  function DueCount(sleep: seq<int>, w: map<int, int>, now: int): (n: nat)
    ensures n <= |sleep|
  {
    if sleep == [] || Key(w, sleep[0]) > now then 0 else 1 + DueCount(sleep[1..], w, now)
  }

  /** The due prefix is the longest one whose sleepers are all due. */
  lemma {:induction false} DueCountIs(sleep: seq<int>, w: map<int, int>, now: int, k: nat)
    requires k <= |sleep|
    requires forall i :: 0 <= i < k ==> Key(w, sleep[i]) <= now
    requires k == |sleep| || Key(w, sleep[k]) > now
    ensures DueCount(sleep, w, now) == k
  {
    if k > 0 {
      assert Key(w, sleep[0]) <= now;
      DueCountIs(sleep[1..], w, now, k - 1);
    }
  }

  /**
   * In a list ordered by wakeup tick, the due prefix holds exactly the
   * sleepers whose tick is at most `now`: the timer interrupt wakes every
   * thread whose tick has come and leaves every other one asleep.
   */
  lemma {:induction false} DueSplit(sleep: seq<int>, w: map<int, int>, now: int)
    requires Sorted(sleep, EarlierWakeup(w))
    ensures forall k :: 0 <= k < DueCount(sleep, w, now) ==> Key(w, sleep[k]) <= now
    ensures forall k :: DueCount(sleep, w, now) <= k < |sleep| ==> Key(w, sleep[k]) > now
  {
    if sleep != [] && Key(w, sleep[0]) <= now {
      SortedTail(sleep, EarlierWakeup(w));
      DueSplit(sleep[1..], w, now);
      assert forall k :: 1 <= k < |sleep| ==> sleep[k] == sleep[1..][k - 1];
    } else if sleep != [] {
      forall k | 0 <= k < |sleep| ensures Key(w, sleep[k]) > now {
        if k > 0 {
          assert !EarlierWakeup(w)(sleep[k], sleep[0]);
        }
      }
    }
  }

  /** A sleeper is woken at tick `now` exactly when its wakeup tick is at most `now`. */
  lemma DueIff(sleep: seq<int>, w: map<int, int>, now: int, k: nat)
    requires Sorted(sleep, EarlierWakeup(w)) && k < |sleep|
    ensures k < DueCount(sleep, w, now) <==> Key(w, sleep[k]) <= now
  {
    DueSplit(sleep, w, now);
  }

  // ---------------------------------------------------------------------
  // timer_sleep and the wakeups of timer_interrupt, as steps
  // ---------------------------------------------------------------------

  /** timer_sleep's `wakeup_tick = start + ticks` on the running thread. */
  function WithWakeup(s: Sched, tick: int): Sched {
    s.(wakeup := s.wakeup[s.current := tick])
  }

  /**
   * timer_sleep(n) at tick `now`: the running thread's wakeup tick becomes
   * now + n, it joins the sleep list by wakeup tick, and it blocks.
   */
  function SleepStep(s: Sched, sleep: seq<int>, now: int, n: int): (Sched, seq<int>) {
    var s1 := WithWakeup(s, now + n);
    (BlockStep(s1), InsertionOf(sleep, s.current, EarlierWakeup(s1.wakeup)))
  }

  /**
   * A thread that calls timer_sleep(5) at tick 100 wakes at tick 105: the
   * interrupts of ticks 101 to 104 leave it asleep and the one of tick 105
   * wakes it.
   */
  lemma SleepFiveAtHundred(s: Sched)
    ensures var (s', sleep) := SleepStep(s, [], 100, 5);
      && sleep == [s.current]
      && (forall now :: 101 <= now <= 104 ==> DueCount(sleep, s'.wakeup, now) == 0)
      && DueCount(sleep, s'.wakeup, 105) == 1
  {
    var (s', sleep) := SleepStep(s, [], 100, 5);
    assert Key(s'.wakeup, s.current) == 105;
  }

  /**
   * A thread that calls timer_sleep(n) at tick `now` is among the sleepers
   * the interrupt of tick `later` wakes exactly when later >= now + n. There
   * is no guard on n: with n <= 0 the thread still sleeps, and the very
   * next interrupt wakes it.
   */
  lemma SleepWakesAt(s: Sched, sleep: seq<int>, now: int, n: int, later: int)
    requires Inv(s) && SleepQueue(sleep, s)
    requires s.current != s.idle && (s.ready != [] || s.idle != NO_THREAD)
    ensures var (s', sleep') := SleepStep(s, sleep, now, n);
      var d := DueCount(sleep', s'.wakeup, later);
      s.current in sleep' && (s.current in sleep'[..d] <==> later >= now + n)
  {
    var s1 := WithWakeup(s, now + n);
    SleepersKeepWakeup(s, sleep, now + n);
    assert s.current !in sleep;
    assert SleepStep(s, sleep, now, n).0.wakeup == s1.wakeup;
    InsertedDueIff(sleep, s.current, s1.wakeup, later);
  }

  /** An ordered insertion into a list ordered by wakeup tick is due at `later` exactly when its own tick is. */
  lemma InsertedDueIff(sleep: seq<int>, t: int, w: map<int, int>, later: int)
    requires Distinct(sleep) && t !in sleep && Sorted(sleep, EarlierWakeup(w))
    ensures var r := InsertionOf(sleep, t, EarlierWakeup(w));
      var d := DueCount(r, w, later);
      t in r && (t in r[..d] <==> Key(w, t) <= later)
  {
    var r := InsertionOf(sleep, t, EarlierWakeup(w));
    SleepListInsert(sleep, w, t);
    SleepInsert(sleep, t, w);
    var j := InsertPos(sleep, t, EarlierWakeup(w));
    assert r[j] == t;
    var d := DueCount(r, w, later);
    DueIff(r, w, later, j);
    if t in r[..d] {
      var i :| 0 <= i < d && r[..d][i] == t;
      assert r[i] == r[j];
    }
  }

  /** The timer interrupt's loop: thread_unblock on each thread of `q`, in order. */
  function WakeAll(s: Sched, q: seq<int>): (r: Sched)
    ensures r.threads.Keys == s.threads.Keys
  {
    if q == [] then s
    else UnblockStep(WakeAll(s, q[..|q| - 1]), q[|q| - 1])
  }

  /** The running thread joins the sleep list in wakeup order. */
  lemma SleepListInsert(sleep: seq<int>, w: map<int, int>, t: int)
    requires Distinct(sleep) && Sorted(sleep, EarlierWakeup(w)) && t !in sleep
    ensures var r := InsertionOf(sleep, t, EarlierWakeup(w));
      && Distinct(r) && Sorted(r, EarlierWakeup(w))
      && multiset(r) == multiset(sleep) + multiset{t}
      && (forall k :: 0 <= k < |r| ==> r[k] == t || r[k] in sleep)
  {
    SleepInsert(sleep, t, w);
    var j := InsertPos(sleep, t, EarlierWakeup(w));
    var r := InsertionOf(sleep, t, EarlierWakeup(w));
    InsertionAt(sleep, j, t);
    DistinctInsert(sleep, j, t);
    forall k | 0 <= k < |r| ensures r[k] == t || r[k] in sleep {
      if k != j {
        assert r[k] in sleep;
      }
    }
  }

  /**
   * timer_sleep keeps the scheduler's invariant and the sleep list's: the
   * caller is BLOCKED in the sleep list with wakeup tick now + n, and another
   * thread runs. There is no check of n: with n <= 0 the thread is due at
   * once and the next interrupt wakes it.
   */
  lemma SleepKeeps(s: Sched, sleep: seq<int>, now: int, n: int)
    requires Inv(s) && SleepQueue(sleep, s)
    requires s.current != s.idle && (s.ready != [] || s.idle != NO_THREAD)
    ensures var (s', sleep') := SleepStep(s, sleep, now, n);
      && SleepQueue(sleep', s')
      && multiset(sleep') == multiset(sleep) + multiset{s.current}
  {
    var s1 := WithWakeup(s, now + n);
    assert Inv(s1);
    SleepersKeepWakeup(s, sleep, now + n);
    SleepQueueAfterBlock(s1, sleep);
  }

  /** timer_sleep blocks its caller, with wakeup tick now + n, and another thread runs. */
  lemma SleepBlocks(s: Sched, sleep: seq<int>, now: int, n: int)
    requires Inv(s) && s.current != s.idle && (s.ready != [] || s.idle != NO_THREAD)
    ensures var s' := SleepStep(s, sleep, now, n).0;
      && Inv(s')
      && s'.current != s.current && s.current in s'.threads
      && s'.threads[s.current] == s.threads[s.current].(status := Blocked)
      && Key(s'.wakeup, s.current) == now + n
  {
    var s1 := WithWakeup(s, now + n);
    assert Inv(s1);
    BlockKeeps(s1);
  }

  /** thread_block after the insertion into the sleep list leaves a sleep list. */
  lemma SleepQueueAfterBlock(s: Sched, sleep: seq<int>)
    requires Inv(s) && SleepQueue(sleep, s)
    requires s.current != s.idle && (s.ready != [] || s.idle != NO_THREAD)
    ensures var sleep' := InsertionOf(sleep, s.current, EarlierWakeup(s.wakeup));
      && SleepQueue(sleep', BlockStep(s))
      && multiset(sleep') == multiset(sleep) + multiset{s.current}
  {
    assert s.current !in sleep;
    BlockedAfterBlock(s, sleep);
    SleepListInsert(sleep, s.wakeup, s.current);
    var s' := BlockStep(s);
    var sleep' := InsertionOf(sleep, s.current, EarlierWakeup(s.wakeup));
    forall k | 0 <= k < |sleep'|
      ensures sleep'[k] in s'.threads && s'.threads[sleep'[k]].status == Blocked && sleep'[k] != s'.idle
    {
      if sleep'[k] != s.current {
        var i :| 0 <= i < |sleep| && sleep[i] == sleep'[k];
      }
    }
  }

  /** The sleepers keep their place in the order when the running thread's wakeup tick is set. */
  lemma SleepersKeepWakeup(s: Sched, sleep: seq<int>, tick: int)
    requires Inv(s) && SleepQueue(sleep, s)
    ensures SleepQueue(sleep, WithWakeup(s, tick))
  {
    var s1 := WithWakeup(s, tick);
    forall k | 0 <= k < |sleep| ensures Key(s.wakeup, sleep[k]) == Key(s1.wakeup, sleep[k]) {
      assert sleep[k] != s.current;
    }
    SleepOrderFrame(sleep, s.wakeup, s1.wakeup);
  }

  /** thread_block changes no sleeper: the thread it runs next is READY or the idle thread. */
  lemma BlockedAfterBlock(s: Sched, sleep: seq<int>)
    requires Inv(s) && (s.ready != [] || s.idle != NO_THREAD)
    requires forall k :: 0 <= k < |sleep| ==> sleep[k] in s.threads && s.threads[sleep[k]].status == Blocked && sleep[k] != s.idle
    ensures forall k :: 0 <= k < |sleep| ==> sleep[k] in BlockStep(s).threads && BlockStep(s).threads[sleep[k]] == s.threads[sleep[k]]
    ensures BlockStep(s).threads[s.current] == s.threads[s.current].(status := Blocked) || s.current == s.idle
    ensures BlockStep(s).idle == s.idle
  {
    BlockKeeps(s);
    var next := NextToRun(WithCurrentStatus(s, Blocked));
    assert s.ready != [] ==> s.threads[s.ready[0]].status == Ready;
    assert forall k :: 0 <= k < |sleep| ==> sleep[k] != next;
  }

  /** The timer interrupt's loop makes each woken thread READY and changes nothing else in the thread table. */
  lemma {:induction false} WakeAllThreads(s: Sched, q: seq<int>)
    ensures var r := WakeAll(s, q);
      && r == s.(threads := r.threads, ready := r.ready)
      && (forall t :: t in s.threads ==> r.threads[t] == if t in q then s.threads[t].(status := Ready) else s.threads[t])
  {
    if q != [] {
      var p := q[..|q| - 1];
      WakeAllThreads(s, p);
      assert q == p + [q[|q| - 1]];
    }
  }

  /**
   * The wakeups of timer_interrupt keep the scheduler's invariant: the
   * ready queue gains exactly the woken threads, and the running thread
   * keeps the CPU, since thread_unblock does not preempt.
   */
  lemma {:induction false} WakeAllKeeps(s: Sched, q: seq<int>)
    requires Inv(s) && Distinct(q)
    requires forall k :: 0 <= k < |q| ==> q[k] in s.threads && s.threads[q[k]].status == Blocked
    ensures Inv(WakeAll(s, q)) && WakeAll(s, q).current == s.current
    ensures multiset(WakeAll(s, q).ready) == multiset(s.ready) + multiset(q)
  {
    if q != [] {
      var p := q[..|q| - 1];
      var t := q[|q| - 1];
      assert q == p + [t];
      assert t !in p;
      WakeAllKeeps(s, p);
      WakeAllThreads(s, p);
      UnblockKeeps(WakeAll(s, p), t);
    }
  }

  /**
   * Waking the first k sleepers keeps the scheduler's invariant and leaves
   * the rest of the list a sleep list.
   */
  lemma WakePrefixKeeps(s: Sched, sleep: seq<int>, k: nat)
    requires Inv(s) && SleepQueue(sleep, s) && k <= |sleep|
    ensures Inv(WakeAll(s, sleep[..k])) && SleepQueue(sleep[k..], WakeAll(s, sleep[..k]))
  {
    var p, q := sleep[..k], sleep[k..];
    assert forall i :: 0 <= i < |p| ==> p[i] == sleep[i];
    assert forall i :: 0 <= i < |q| ==> q[i] == sleep[k + i];
    WakeAllKeeps(s, p);
    WakeAllThreads(s, p);
    var r := WakeAll(s, p);
    forall i, j | 0 <= i < j < |q| ensures !EarlierWakeup(r.wakeup)(q[j], q[i]) {
      assert !EarlierWakeup(s.wakeup)(sleep[k + j], sleep[k + i]);
    }
  }

  /** After the first k sleepers are woken, the next one is still BLOCKED and may be unblocked. */
  lemma WakeNextBlocked(s: Sched, sleep: seq<int>, k: nat)
    requires Inv(s) && SleepQueue(sleep, s) && k < |sleep|
    ensures var r := WakeAll(s, sleep[..k]);
      Inv(r) && sleep[k] in r.threads && r.threads[sleep[k]].status == Blocked
  {
    WakePrefixKeeps(s, sleep, k);
    assert sleep[k..][0] == sleep[k];
  }

  /**
   * What timer_interrupt's loop leaves at tick `now`: the scheduler's
   * invariant holds, the sleepers left are still a sleep list, and none of
   * them is due. WakeAllReady shows that the woken ones are READY and queued.
   */
  lemma WakeDueKeeps(s: Sched, sleep: seq<int>, now: int)
    requires Inv(s) && SleepQueue(sleep, s)
    ensures var n := DueCount(sleep, s.wakeup, now);
      var r := WakeAll(s, sleep[..n]);
      && Inv(r) && SleepQueue(sleep[n..], r)
      && (forall t :: t in sleep[n..] ==> Key(r.wakeup, t) > now)
  {
    var n := DueCount(sleep, s.wakeup, now);
    var q := sleep[n..];
    WakePrefixKeeps(s, sleep, n);
    DueSplit(sleep, s.wakeup, now);
    WakeAllThreads(s, sleep[..n]);
    assert forall i :: 0 <= i < |q| ==> q[i] == sleep[n + i];
  }

  /** Every thread the timer interrupt wakes is READY and in the ready queue. */
  lemma WakeAllReady(s: Sched, q: seq<int>)
    requires Inv(s) && Distinct(q)
    requires forall k :: 0 <= k < |q| ==> q[k] in s.threads && s.threads[q[k]].status == Blocked
    ensures forall k :: 0 <= k < |q| ==> WakeAll(s, q).threads[q[k]].status == Ready && q[k] in WakeAll(s, q).ready
  {
    WakeAllKeeps(s, q);
    WakeAllThreads(s, q);
    var r := WakeAll(s, q);
    forall k | 0 <= k < |q| ensures q[k] in r.ready {
      assert q[k] in multiset(q);
      assert q[k] in multiset(r.ready);
    }
  }

  // ---------------------------------------------------------------------
  // real_time_sleep's tick count
  // ---------------------------------------------------------------------

  /** C's integer division, which truncates toward zero. */
  function CDiv(a: int, b: int): int
    requires b > 0
  {
    if a >= 0 then a / b else -((-a) / b)
  }

  /** real_time_sleep's `num * TIMER_FREQ / denom`: `num` units of 1/denom seconds, in ticks, rounded toward zero. */
  function RealTimeTicks(num: int, freq: int, denom: int): int
    requires denom > 0
  {
    CDiv(num * freq, denom)
  }

  /**
   * The tick count is the real time rounded toward zero; it is positive,
   * and real_time_sleep sleeps, exactly when the time is at least one tick.
   */
  lemma RealTimeTicksBounds(num: int, freq: int, denom: int)
    requires freq > 0 && denom > 0
    ensures var r := RealTimeTicks(num, freq, denom);
      && (r > 0 <==> num * freq >= denom)
      && (num >= 0 ==> r >= 0 && r * denom <= num * freq < (r + 1) * denom)
      && (num < 0 ==> r <= 0 && (-r) * denom <= -(num * freq) < (-r + 1) * denom)
  {
    var a := num * freq;
    if num >= 0 {
      assert a >= 0;
    } else {
      assert a < 0;
    }
  }

  // ---------------------------------------------------------------------
  // The timer
  // ---------------------------------------------------------------------

  /** The globals of timer.c, and the scheduler whose threads it puts to sleep and wakes. */
  class Timer {
    var ticks: int
    var sleep: seq<int>
    const sched: Scheduler
    /** TIMER_FREQ, the number of interrupts per second. */
    const freq: int

    ghost predicate Valid()
      reads this, sched
    {
      sched.Valid() && FREQ_MIN <= freq <= FREQ_MAX && SleepQueue(sleep, sched.State())
    }

    /** timer_init, without programming the 8254: the sleep list starts empty, at tick 0. */
    constructor (sched: Scheduler, freq: int)
      requires sched.Valid() && FREQ_MIN <= freq <= FREQ_MAX
      ensures Valid() && ticks == 0 && sleep == [] && this.sched == sched && this.freq == freq
    {
      ticks := 0;
      sleep := [];
      this.sched := sched;
      this.freq := freq;
    }

    /** timer_ticks: the number of ticks since boot. */
    method TimerTicks() returns (t: int)
      ensures t == ticks
    {
      t := ticks;
    }

    /** timer_elapsed: the ticks that have passed since tick `since`, an earlier result of timer_ticks. */
    method TimerElapsed(since: int) returns (elapsed: int)
      ensures since + elapsed == ticks
      ensures since <= ticks ==> elapsed >= 0
    {
      var t := TimerTicks();
      elapsed := t - since;
    }

    /**
     * timer_sleep(n): the caller sleeps until the interrupt of tick
     * ticks + n. The idle thread never sleeps, and there must be a thread to
     * run meanwhile.
     */
    method Sleep(n: int)
      requires Valid() && sched.current != sched.idle && (sched.ready != [] || sched.idle != NO_THREAD)
      modifies this`sleep, sched
      ensures (sched.State(), sleep) == SleepStep(old(sched.State()), old(sleep), ticks, n)
      ensures Valid()
    {
      ghost var s0 := sched.State();
      ghost var s1 := WithWakeup(s0, ticks + n);
      ghost var sl1 := InsertionOf(sleep, s0.current, EarlierWakeup(s1.wakeup));
      assert SleepStep(s0, sleep, ticks, n) == (BlockStep(s1), sl1);
      SleepKeeps(s0, sleep, ticks, n);
      var start := TimerTicks();
      sched.SetWakeup(start + n);
      assert sched.State() == s1;
      sleep := InsertionOf(sleep, sched.current, EarlierWakeup(sched.wakeup));
      assert sleep == sl1;
      sched.Block();
      assert sched.State() == BlockStep(s1);
    }

    /**
     * timer_interrupt: the tick count advances, thread_tick runs, and every
     * sleeper whose wakeup tick has come is unblocked, earliest first. The
     * result is thread_tick's request to yield when the interrupt returns.
     */
    method Interrupt() returns (yieldOnReturn: bool)
      requires Valid()
      modifies this`ticks, this`sleep, sched
      ensures ticks == old(ticks) + 1
      ensures var (s1, y) := TickStep(old(sched.State()), sched.userprog);
        var n := DueCount(old(sleep), old(sched.wakeup), ticks);
        && yieldOnReturn == y
        && sleep == old(sleep)[n..]
        && sched.State() == WakeAll(s1, old(sleep)[..n])
      ensures Valid()
    {
      ticks := ticks + 1;
      yieldOnReturn := sched.Tick();
      ghost var s1, sl0 := sched.State(), sleep;
      WakeDue();
      WakePrefixKeeps(s1, sl0, DueCount(sl0, s1.wakeup, ticks));
    }

    /**
     * timer_interrupt's loop: pops and unblocks each sleeper at the front of
     * the list whose wakeup tick has come. WakePrefixKeeps shows that this
     * keeps the invariant.
     */
    method WakeDue()
      requires Valid()
      modifies this`sleep, sched
      ensures var n := DueCount(old(sleep), old(sched.wakeup), ticks);
        && sleep == old(sleep)[n..]
        && sched.State() == WakeAll(old(sched.State()), old(sleep)[..n])
    {
      ghost var s1 := sched.State();
      ghost var sl0 := sleep;
      ghost var w := s1.wakeup;
      ghost var k := 0;
      ghost var now := ticks;
      while sleep != []
        invariant 0 <= k <= |sl0| && sleep == sl0[k..]
        invariant forall i :: 0 <= i < k ==> Key(w, sl0[i]) <= now
        invariant sched.State() == WakeAll(s1, sl0[..k]) && sched.wakeup == w
        decreases |sleep|
      {
        var t := sleep[0];
        if Key(sched.wakeup, t) <= ticks {
          assert sl0[..k + 1][..k] == sl0[..k];
          assert WakeAll(s1, sl0[..k + 1]) == UnblockStep(sched.State(), t);
          assert t == sl0[k] && Key(w, sl0[k]) <= now;
          WakeNextBlocked(s1, sl0, k);
          sleep := sleep[1..];
          sched.Unblock(t);
          k := k + 1;
        } else {
          assert Key(w, sl0[k]) > now;
          break;
        }
      }
      DueCountIs(sl0, w, now, k);
    }

    /**
     * real_time_sleep(num, denom): sleeps for num/denom seconds in whole
     * ticks; when that is under one tick the source busy-waits, which
     * changes no state here.
     */
    method RealTimeSleep(num: int, denom: int)
      requires Valid() && denom > 0
      requires RealTimeTicks(num, freq, denom) > 0 ==> sched.current != sched.idle && (sched.ready != [] || sched.idle != NO_THREAD)
      modifies this`sleep, sched
      ensures var n := RealTimeTicks(num, freq, denom);
        && (n > 0 ==> (sched.State(), sleep) == SleepStep(old(sched.State()), old(sleep), ticks, n))
        && (n <= 0 ==> sched.State() == old(sched.State()) && sleep == old(sleep))
      ensures Valid()
    {
      var n := num * freq / denom;
      if num * freq < 0 {
        n := -((-(num * freq)) / denom);
      }
      if n > 0 {
        Sleep(n);
      }
    }

    /** timer_msleep: about `ms` milliseconds. */
    method MSleep(ms: int)
      requires Valid()
      requires RealTimeTicks(ms, freq, 1000) > 0 ==> sched.current != sched.idle && (sched.ready != [] || sched.idle != NO_THREAD)
      modifies this`sleep, sched
      ensures var n := RealTimeTicks(ms, freq, 1000);
        && (n > 0 ==> (sched.State(), sleep) == SleepStep(old(sched.State()), old(sleep), ticks, n))
        && (n <= 0 ==> sched.State() == old(sched.State()) && sleep == old(sleep))
      ensures Valid()
    {
      RealTimeSleep(ms, 1000);
    }

    /** timer_usleep: about `us` microseconds. */
    method USleep(us: int)
      requires Valid()
      requires RealTimeTicks(us, freq, 1000 * 1000) > 0 ==> sched.current != sched.idle && (sched.ready != [] || sched.idle != NO_THREAD)
      modifies this`sleep, sched
      ensures var n := RealTimeTicks(us, freq, 1000 * 1000);
        && (n > 0 ==> (sched.State(), sleep) == SleepStep(old(sched.State()), old(sleep), ticks, n))
        && (n <= 0 ==> sched.State() == old(sched.State()) && sleep == old(sleep))
      ensures Valid()
    {
      RealTimeSleep(us, 1000 * 1000);
    }

    /** timer_nsleep: about `ns` nanoseconds. */
    method NSleep(ns: int)
      requires Valid()
      requires RealTimeTicks(ns, freq, 1000 * 1000 * 1000) > 0 ==> sched.current != sched.idle && (sched.ready != [] || sched.idle != NO_THREAD)
      modifies this`sleep, sched
      ensures var n := RealTimeTicks(ns, freq, 1000 * 1000 * 1000);
        && (n > 0 ==> (sched.State(), sleep) == SleepStep(old(sched.State()), old(sleep), ticks, n))
        && (n <= 0 ==> sched.State() == old(sched.State()) && sleep == old(sleep))
      ensures Valid()
    {
      RealTimeSleep(ns, 1000 * 1000 * 1000);
    }
  }
}
