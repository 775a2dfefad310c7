/** The functions of src/threads/thread.c, src/threads/synch.c and
    src/devices/timer.c as they run, on the kernel's variables.  Every method that takes
    a step of the kernel keeps the invariant and does what that step says. */
module KernelCode {
  import opened Options
  import opened Threads
  import opened Scheduling
  import opened Alarm
  import opened Semaphores
  import opened Locks
  import opened Kernel
  import opened KernelSafety
  import C = KernelCalls
  import O = KernelOrder

  /** The kernel's variables.  pc stands for the threads' saved contexts; arrivals numbers
      the sleepers as they come, and stage says how far each cond_wait() has come. */
  class Variables {
    var status: map<nat, Status>
    var ready: seq<nat>
    var cur: nat
    var idle: nat
    var initial: nat
    var threadTicks: nat
    var ticks: int
    var sleepers: seq<Sleeper>
    var semas: map<SemaId, Sema>
    var locks: map<nat, Lock>
    var conds: map<CondId, seq<nat>>
    var pc: map<nat, Pc>
    var intrOff: bool
    var arrivals: nat
    ghost var stage: map<nat, Stage>

    ghost function Now(): (sc: Sched)
      reads this
    {
      Sched(status, ready, cur, idle, initial, threadTicks)
    }

    ghost function View(): (k: State)
      reads this
    {
      State(Now(), pc, Clock(ticks, sleepers, arrivals), semas, locks, conds, stage, intrOff)
    }

    ghost predicate Valid()
      reads this
    {
      Inv(View())
    }

    /** The call that thread t made in state k is in progress, or has returned with its
        promise kept. */
    ghost predicate Goes(k: State, t: nat, call: Step)
      reads this
    {
      C.CallGoes(C.ListFor(k, call), k, View(), t, call)
    }

    /** The kernel when thread_start() has run the idle thread once, with its semaphores,
        locks and condition variables initialized. */
    constructor (k: State)
      requires Initial(k)
      ensures Valid() && View() == k
    {
      status, ready, cur, idle, initial := k.sc.status, k.sc.ready, k.sc.cur, k.sc.idle, k.sc.initial;
      threadTicks, ticks, sleepers, arrivals := k.sc.threadTicks, k.clock.ticks, k.clock.sleepers, k.clock.arrivals;
      semas, locks, conds, pc, stage, intrOff := k.semas, k.locks, k.conds, k.pc, k.stage, k.intrOff;
      new;
      InitialInv(k);
    }

    // -------------------------------------------------------------------
    // Scheduling
    // -------------------------------------------------------------------

    /** thread_unblock() */
    method ThreadUnblock(t: nat)
      modifies this`ready, this`status
      ensures Now() == Unblock(old(Now()), t)
    {
      ready := ready + [t];
      status := status[t := Ready];
    }

    /** next_thread_to_run() */
    method NextThreadToRun() returns (t: nat)
      modifies this`ready
      ensures t == NextThread(old(Now())) && ready == if old(ready) == [] then [] else old(ready)[1..]
    {
      if ready == [] {
        return idle;
      }
      t := ready[0];
      ready := ready[1..];
    }

    /** thread_schedule_tail(), just after the switch from prev to the current thread. */
    method ThreadScheduleTail(prev: Option<nat>)
      requires prev.Some? ==> prev.value in status && prev.value != cur
      modifies this`status, this`threadTicks
      ensures threadTicks == 0
      ensures
        var running := old(status)[cur := Running];
        status == if prev.Some? && old(status)[prev.value] == Dying && prev.value != initial
                  then running - {prev.value} else running
    {
      status := status[cur := Running];
      threadTicks := 0;
      if prev.Some? && status[prev.value] == Dying && prev.value != initial {
        status := status - {prev.value};
      }
    }

    /** schedule() */
    method ScheduleNext()
      requires cur in status
      modifies this`status, this`ready, this`cur, this`threadTicks, this`intrOff
      ensures Now() == Schedule(old(Now())) && intrOff
    {
      var prev := cur;
      var next := NextThreadToRun();
      cur := next;
      ThreadScheduleTail(if prev != next then Some(prev) else None);
      intrOff := true;
    }

    /** thread_block(); the thread comes to stand at p. */
    method ThreadBlock(p: Pc)
      requires cur in status
      modifies this`status, this`ready, this`cur, this`threadTicks, this`pc, this`intrOff
      ensures View() == Switch(old(View()), Block(old(Now())), p)
    {
      pc := pc[cur := p];
      status := status[cur := Blocked];
      ScheduleNext();
    }

    /** The current thread stops running and becomes st. */
    method StopAs(st: Status)
      requires cur in status
      modifies this`status, this`ready, this`cur, this`threadTicks, this`intrOff
      ensures View() == old(View()).(
                          sc := Schedule(old(Now()).(status := old(status)[old(cur) := st])), intrOff := true)
    {
      status := status[cur := st];
      ScheduleNext();
    }

    /** thread_yield(), whoever calls it. */
    method GiveUp()
      requires cur in status
      modifies this`status, this`ready, this`cur, this`threadTicks, this`intrOff
      ensures View() == old(View()).(sc := Schedule(Yield(old(Now()))), intrOff := true)
    {
      if cur != idle {
        ready := ready + [cur];
      }
      status := status[cur := Ready];
      ScheduleNext();
    }

    /** thread_yield() by a thread. */
    method ThreadYield()
      requires Valid() && Enabled(View(), YieldStep)
      modifies this
      ensures Valid() && View() == Apply(old(View()), YieldStep)
      ensures old(ready) + [old(cur)] == [cur] + ready
    {
      StepKeeps(View(), YieldStep);
      O.YieldRotates(View());
      GiveUp();
    }

    /** thread_create() of a thread with the number t. */
    method ThreadCreate(t: nat)
      requires Valid() && Enabled(View(), CreateStep(t))
      modifies this
      ensures Valid() && View() == Apply(old(View()), CreateStep(t))
    {
      StepKeeps(View(), CreateStep(t));
      InitThread(t);
    }

    /** init_thread() and thread_unblock() in thread_create() */
    method InitThread(t: nat)
      modifies this`status, this`pc, this`ready
      ensures View() == old(View()).(sc := Unblock(Create(old(Now()), t), t), pc := old(pc)[t := Free])
    {
      status := status[t := Blocked];
      pc := pc[t := Free];
      ThreadUnblock(t);
    }

    /** The current thread comes to stand at p. */
    method GoTo(p: Pc)
      modifies this`pc
      ensures View() == Goto(old(View()), p)
    {
      pc := pc[cur := p];
    }

    /** thread_exit() */
    method ThreadExit()
      requires Valid() && Enabled(View(), ExitStep)
      modifies this
      ensures Valid() && View() == Apply(old(View()), ExitStep)
      ensures O.Gone(View(), old(cur))
    {
      StepKeeps(View(), ExitStep);
      O.ExitsGone(View());
      StopAs(Dying);
    }

    /** The loop of idle(). */
    method IdleLoop()
      requires Valid() && Enabled(View(), IdleBlock)
      modifies this
      ensures Valid() && View() == Apply(old(View()), IdleBlock)
    {
      StepKeeps(View(), IdleBlock);
      StopAs(Blocked);
    }

    /** A thread that was switched to goes on; a waiter of a semaphore looks at it again. */
    method ResumeThread()
      requires Valid() && Enabled(View(), Resume)
      modifies this
      ensures Valid() && View() == Apply(old(View()), Resume)
      ensures C.EveryCallGoes(old(View()), View())
    {
      StepKeeps(View(), Resume);
      C.CallsGoOn(View(), Resume);
      var p := pc[cur];
      if p.Woken? && p.s in semas {
        Down(p.s, p.cont);
      } else {
        intrOff := false;
      }
    }

    // -------------------------------------------------------------------
    // The alarm clock
    // -------------------------------------------------------------------

    /** list_insert_ordered (&list_threads, ...) */
    method InsertSleeper(x: Sleeper)
      modifies this`sleepers
      ensures sleepers == Insert(x, old(sleepers))
    {
      ghost var xs := sleepers;
      var i := 0;
      assert xs[0..] == xs && xs[..0] + Insert(x, xs[0..]) == Insert(x, xs);
      while i < |sleepers| && !IsLessThan(x, sleepers[i])
        invariant i <= |sleepers| && sleepers == xs && Insert(x, xs) == xs[..i] + Insert(x, xs[i..])
      {
        assert xs[i..][1..] == xs[i + 1..] && xs[..i + 1] == xs[..i] + [xs[i]];
        i := i + 1;
      }
      assert Insert(x, xs[i..]) == [x] + xs[i..];
      sleepers := sleepers[..i] + ([x] + sleepers[i..]);
    }

    /** timer_sleep(), computing the wake tick. */
    method TimerSleep(duration: int)
      requires Valid() && Enabled(View(), SleepStep(duration))
      modifies this
      ensures Valid() && View() == Apply(old(View()), SleepStep(duration))
    {
      StepKeeps(View(), SleepStep(duration));
      GoTo(SleepCall(ticks + duration));
    }

    /** timer_sleep() with interrupts off. */
    method FallAsleep(wake: int)
      requires cur in status
      modifies this
      ensures View() == Continue(old(View()), SleepCall(wake))
    {
      InsertSleeper(Sleeper(cur, wake, arrivals));
      arrivals := arrivals + 1;
      ThreadBlock(Asleep(wake));
    }

    /** The loop of timer_interrupt(). */
    method WakeSleepers()
      modifies this`sleepers, this`ready, this`status, this`pc
      ensures (Now(), pc, sleepers) == WakeDue(old(Now()), old(pc), old(sleepers), ticks)
    {
      while sleepers != []
        invariant WakeDue(Now(), pc, sleepers, ticks) == WakeDue(old(Now()), old(pc), old(sleepers), ticks)
        decreases |sleepers|
      {
        var t := sleepers[0];
        if ticks < t.wake {
          break;
        }
        sleepers := sleepers[1..];
        ThreadUnblock(t.t);
        pc := pc[t.t := Free];
      }
    }

    /** thread_tick(), and thread_yield() on return from the interrupt when the slice is over. */
    method EndSlice()
      requires cur in status && !intrOff
      modifies this`status, this`ready, this`cur, this`threadTicks, this`intrOff
      ensures View() == EndTick(old(View()))
    {
      threadTicks := threadTicks + 1;
      if threadTicks >= TIME_SLICE {
        GiveUp();
      }
    }

    method CountTick()
      requires cur in status
      modifies this`ticks, this`sleepers, this`ready, this`status, this`pc
      ensures View() == StartTick(old(View())) && cur in status
    {
      ticks := ticks + 1;
      WakeSleepers();
    }

    /** timer_interrupt() */
    method TimerInterrupt()
      requires Valid() && Enabled(View(), Tick)
      modifies this
      ensures Valid() && View() == Apply(old(View()), Tick)
    {
      StepKeeps(View(), Tick);
      CountTick();
      EndSlice();
    }

    // -------------------------------------------------------------------
    // Semaphores
    // -------------------------------------------------------------------

    /** sema_up() on any semaphore. */
    method Up(s: SemaId)
      requires s in semas
      modifies this`semas, this`ready, this`status, this`pc
      ensures View() == UpSema(old(View()), s)
    {
      var x := semas[s];
      if x.waiters != [] {
        var w := x.waiters[0];
        ThreadUnblock(w);
        pc := pc[w := Woken(s, ContOf(pc, w))];
        x := x.(waiters := x.waiters[1..]);
      }
      semas := semas[s := x.(value := x.value + 1, ups := x.ups + 1)];
    }

    /** The end of sema_down(). */
    method Take(s: SemaId, cont: Cont)
      requires s in semas && cur in status && semas[s].value > 0
      modifies this`semas, this`pc, this`intrOff, this`locks, this`stage
      ensures View() == DownSema(old(View()), s, cont)
    {
      var x := semas[s];
      semas := semas[s := x.(value := x.value - 1, downs := x.downs + 1)];
      pc, intrOff := pc[cur := GoOn(cont)], false;
      Enter(s, cont);
    }

    /** Notes that the current thread is inside a lock, or has its signal. */
    method Enter(s: SemaId, cont: Cont)
      modifies this`locks, this`stage
      ensures locks == if s.OfLock? && s.l in old(locks) then old(locks)[s.l := old(locks)[s.l].(inside := Some(cur))]
                       else old(locks)
      ensures stage == if s.OfWaiter? && cont.Reacquire? then old(stage)[cur := Got(cont.c)] else old(stage)
    {
      if s.OfLock? && s.l in locks {
        locks := locks[s.l := locks[s.l].(inside := Some(cur))];
      }
      if s.OfWaiter? && cont.Reacquire? {
        stage := stage[cur := Got(cont.c)];
      }
    }

    /** sema_down() on any semaphore, up to its end or to the next switch in its loop. */
    method Down(s: SemaId, cont: Cont)
      requires s in semas && cur in status
      modifies this
      ensures View() == DownSema(old(View()), s, cont)
    {
      if semas[s].value == 0 {
        semas := semas[s := semas[s].(waiters := semas[s].waiters + [cur])];
        ThreadBlock(Waiting(s, cont));
      } else {
        Take(s, cont);
      }
    }

    /** sema_down() */
    method SemaDown(n: nat)
      requires Valid() && Enabled(View(), DownStep(n))
      modifies this
      ensures Valid() && View() == Apply(old(View()), DownStep(n))
      ensures Goes(old(View()), old(cur), DownStep(n))
    {
      StepKeeps(View(), DownStep(n));
      C.CallStarts(View(), DownStep(n));
      Down(Plain(n), Return);
    }

    /** sema_try_down() */
    method SemaTryDown(n: nat) returns (success: bool)
      requires Valid() && Enabled(View(), TryDownStep(n))
      modifies this
      ensures Valid() && View() == Apply(old(View()), TryDownStep(n)) && success == (old(semas)[Plain(n)].value > 0)
      ensures if success then C.Downed(old(View()), View(), Plain(n)) else View() == old(View())
    {
      StepKeeps(View(), TryDownStep(n));
      O.TryDownTakes(View(), n);
      success := TryTake(Plain(n));
    }

    method TryTake(s: SemaId) returns (success: bool)
      requires s in semas
      modifies this`semas
      ensures success == (old(semas)[s].value > 0)
      ensures View() == if success then old(View()).(semas := old(semas)[s := Taken(old(semas)[s])]) else old(View())
    {
      var x := semas[s];
      success := x.value > 0;
      if success {
        semas := semas[s := x.(value := x.value - 1, downs := x.downs + 1)];
      }
    }

    /** sema_up() */
    method SemaUp(n: nat)
      requires Valid() && Enabled(View(), UpStep(n))
      modifies this
      ensures Valid() && View() == Apply(old(View()), UpStep(n))
      ensures O.WokeFirst(old(View()), View(), Plain(n))
    {
      StepKeeps(View(), UpStep(n));
      O.UpWakesFirst(View(), n);
      Up(Plain(n));
    }

    // -------------------------------------------------------------------
    // Locks and condition variables
    // -------------------------------------------------------------------

    method SetHolderOf(l: nat, holder: Option<nat>)
      requires l in locks
      modifies this`locks
      ensures locks == old(locks)[l := old(locks)[l].(holder := holder)]
    {
      locks := locks[l := locks[l].(holder := holder)];
    }

    /** lock_acquire(): its sema_down(). */
    method LockAcquire(l: nat)
      requires Valid() && Enabled(View(), AcquireStep(l))
      modifies this
      ensures Valid() && View() == Apply(old(View()), AcquireStep(l))
      ensures Goes(old(View()), old(cur), AcquireStep(l))
    {
      StepKeeps(View(), AcquireStep(l));
      C.CallStarts(View(), AcquireStep(l));
      Down(OfLock(l), TakeLock(l, None));
    }

    /** lock_try_acquire(): its sema_try_down(). */
    method LockTryAcquire(l: nat) returns (success: bool)
      requires Valid() && Enabled(View(), TryAcquireStep(l))
      modifies this
      ensures Valid() && View() == Apply(old(View()), TryAcquireStep(l)) && success == (old(semas)[OfLock(l)].value > 0)
      ensures Goes(old(View()), old(cur), TryAcquireStep(l))
    {
      StepKeeps(View(), TryAcquireStep(l));
      C.CallStarts(View(), TryAcquireStep(l));
      success := semas[OfLock(l)].value > 0;
      if success {
        Down(OfLock(l), TakeLock(l, None));
      }
    }

    /** lock_release(): its first statement. */
    method LockRelease(l: nat)
      requires Valid() && Enabled(View(), ReleaseStep(l))
      modifies this
      ensures Valid() && View() == Apply(old(View()), ReleaseStep(l))
      ensures Goes(old(View()), old(cur), ReleaseStep(l))
    {
      StepKeeps(View(), ReleaseStep(l));
      C.CallStarts(View(), ReleaseStep(l));
      DropHolder(l, None);
    }

    /** lock_release(): its first statement, in a cond_wait() on c or not. */
    method DropHolder(l: nat, c: Option<CondId>)
      requires l in locks
      modifies this`locks, this`pc
      ensures View() == Goto(old(View()), Release(l, c)).(locks := old(locks)[l := old(locks)[l].(holder := None)])
    {
      SetHolderOf(l, None);
      pc := pc[cur := Release(l, c)];
    }

    /** lock_release(): its sema_up(), after which a cond_wait() goes on to sema_down(). */
    method LeaveLock(l: nat, c: Option<CondId>)
      requires cur in status && l in locks && OfLock(l) in semas
      modifies this
      ensures View() == Continue(old(View()), Release(l, c))
    {
      Up(OfLock(l));
      locks := locks[l := locks[l].(inside := None)];
      pc := pc[cur := if c.Some? then Pc.Down(OfWaiter(cur), Reacquire(c.value)) else Free];
    }

    /** lock_acquire(): its last statement, where cond_wait() ends too. */
    method BecomeHolder(l: nat, c: Option<CondId>)
      requires cur in status && l in locks
      modifies this
      ensures View() == Continue(old(View()), SetHolder(l, c))
    {
      SetHolderOf(l, Some(cur));
      pc := pc[cur := Free];
      if c.Some? {
        stage := stage - {cur};
      }
    }

    /** cond_wait(): gets on the list with a fresh semaphore. */
    method CondWait(c: CondId)
      requires Valid() && Enabled(View(), WaitStep(c))
      modifies this
      ensures Valid() && View() == Apply(old(View()), WaitStep(c))
      ensures Goes(old(View()), old(cur), WaitStep(c))
    {
      StepKeeps(View(), WaitStep(c));
      C.CallStarts(View(), WaitStep(c));
      GetOnList(c);
    }

    method GetOnList(c: CondId)
      requires c in conds
      modifies this`semas, this`conds, this`stage, this`pc
      ensures View() == Goto(old(View()), CondRelease(c)).(
                          semas := old(semas)[OfWaiter(cur) := NewSema(0)],
                          conds := old(conds)[c := old(conds)[c] + [cur]],
                          stage := old(stage)[cur := Listed(c)])
    {
      semas := semas[OfWaiter(cur) := NewSema(0)];
      conds := conds[c := conds[c] + [cur]];
      stage := stage[cur := Listed(c)];
      pc := pc[cur := CondRelease(c)];
    }

    /** cond_wait(): the first statement of its lock_release(). */
    method CondLetGo(c: CondId)
      requires cur in status && c.lock in locks
      modifies this
      ensures View() == Continue(old(View()), CondRelease(c))
    {
      DropHolder(c.lock, Some(c));
    }

    /** cond_signal() up to its sema_up(). */
    method PickFirst(c: CondId, more: bool)
      requires c in conds && conds[c] != []
      modifies this`conds, this`stage, this`pc
      ensures View() == Pick(old(View()), c, more)
    {
      var w := conds[c][0];
      conds := conds[c := conds[c][1..]];
      stage := stage[w := Picked(c, cur)];
      pc := pc[cur := SignalUp(c, w, more)];
    }

    /** cond_signal() */
    method CondSignal(c: CondId)
      requires Valid() && Enabled(View(), SignalStep(c))
      modifies this
      ensures Valid() && View() == Apply(old(View()), SignalStep(c))
      ensures Goes(old(View()), old(cur), SignalStep(c))
    {
      StepKeeps(View(), SignalStep(c));
      C.CallStarts(View(), SignalStep(c));
      if conds[c] != [] {
        PickFirst(c, false);
      }
    }

    /** The sema_up() of cond_signal(); a cond_broadcast() goes back to its loop. */
    method SignalWaiter(c: CondId, w: nat, more: bool)
      requires cur in status && OfWaiter(w) in semas
      modifies this
      ensures View() == Continue(old(View()), SignalUp(c, w, more))
    {
      Up(OfWaiter(w));
      stage := stage[w := Posted(c)];
      pc := pc[cur := if more then Broadcast(c) else Free];
    }

    /** cond_broadcast() */
    method CondBroadcast(c: CondId)
      requires Valid() && Enabled(View(), BroadcastStep(c))
      modifies this
      ensures Valid() && View() == Apply(old(View()), BroadcastStep(c))
      ensures Goes(old(View()), old(cur), BroadcastStep(c))
    {
      StepKeeps(View(), BroadcastStep(c));
      C.CallStarts(View(), BroadcastStep(c));
      GoTo(Broadcast(c));
    }

    /** The loop of cond_broadcast(). */
    method BroadcastLoop(c: CondId)
      requires cur in status && c in conds
      modifies this
      ensures View() == Continue(old(View()), Broadcast(c))
    {
      if conds[c] == [] {
        pc := pc[cur := Free];
      } else {
        PickFirst(c, true);
      }
    }

    /** The current thread goes on inside a function. */
    method GoOnInside()
      requires Valid() && Enabled(View(), Next)
      modifies this
      ensures Valid() && View() == Apply(old(View()), Next)
      ensures C.EveryCallGoes(old(View()), View())
    {
      StepKeeps(View(), Next);
      C.CallsGoOn(View(), Next);
      Proceed(pc[cur]);
    }

    method Proceed(p: Pc)
      requires cur in status && CanGoOn(View(), p)
      modifies this
      ensures View() == Continue(old(View()), p)
    {
      match p {
        case Down(s, cont) => Down(s, cont);
        case SetHolder(l, c) => BecomeHolder(l, c);
        case Release(l, c) => LeaveLock(l, c);
        case CondRelease(c) => CondLetGo(c);
        case SignalUp(c, w, more) => SignalWaiter(c, w, more);
        case Broadcast(c) => BroadcastLoop(c);
        case SleepCall(wake) => FallAsleep(wake);
      }
    }
  }
}
