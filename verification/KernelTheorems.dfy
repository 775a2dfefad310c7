/** What the invariant says about threads, semaphores, locks, condition variables
    and the alarm clock, and the round-robin bound over whole runs. */
module KernelTheorems {
  import opened Options
  import opened DistinctLists
  import opened Threads
  import opened Scheduling
  import opened Alarm
  import opened Semaphores
  import opened Locks
  import opened Kernel
  import opened KernelSafety

  // ---------------------------------------------------------------------
  // The scheduler
  // ---------------------------------------------------------------------

  /** The current thread, and no other, is running. */
  lemma OneRunning(k: State, t: nat)
    requires Inv(k)
    ensures t in k.sc.status && k.sc.status[t] == Running <==> t == k.sc.cur
  {
  }

  ghost predicate OnReady(k: State, t: nat) {
    exists i :: 0 <= i < |k.sc.ready| && k.sc.ready[i] == t
  }

  ghost predicate OnWait(k: State, s: SemaId, t: nat) {
    s in k.semas && exists i :: 0 <= i < |k.semas[s].waiters| && k.semas[s].waiters[i] == t
  }

  ghost predicate OnSleep(k: State, t: nat) {
    exists i :: 0 <= i < |k.clock.sleepers| && k.clock.sleepers[i].t == t
  }

  /** The ready list holds, each once, exactly the ready threads except the idle one. */
  lemma ReadyExactly(k: State, t: nat)
    requires Inv(k)
    ensures OnReady(k, t) <==> t in k.sc.status && k.sc.status[t] == Ready && t != k.sc.idle
    ensures forall i, j :: 0 <= i < |k.sc.ready| && 0 <= j < |k.sc.ready| && i != j ==> k.sc.ready[i] != k.sc.ready[j]
  {
    var s := ReadySet(k.sc.status, k.sc.idle);
    forall i | 0 <= i < |k.sc.ready|
      ensures k.sc.ready[i] in s && forall j :: 0 <= j < |k.sc.ready| && j != i ==> k.sc.ready[j] != k.sc.ready[i]
    {
      ListExact(k.sc.ready, s, i);
    }
    if t in s {
      var i := ListFind(k.sc.ready, s, t);
      assert k.sc.ready[i] == t;
    }
  }

  /** A semaphore's list names exactly the threads that wait for it. */
  lemma WaitExactly(k: State, s: SemaId, t: nat)
    requires Inv(k) && s in k.semas
    ensures OnWait(k, s, t) <==> t in k.pc && k.pc[t].Waiting? && k.pc[t].s == s
  {
    assert SemaOk(k.semas[s], s, k.pc);
    var w := WaitSet(k.pc, s);
    forall i | 0 <= i < |k.semas[s].waiters| ensures k.semas[s].waiters[i] in w {
      ListExact(k.semas[s].waiters, w, i);
    }
    if t in w {
      var i := ListFind(k.semas[s].waiters, w, t);
      assert k.semas[s].waiters[i] == t;
    }
  }

  lemma {:induction false} SleeperIs(xs: seq<Sleeper>, pc: map<nat, Pc>, s: set<nat>, i: nat)
    requires SleepersOf(xs, pc, s) && i < |xs|
    ensures xs[i].t in s && xs[i].t in pc && pc[xs[i].t] == Asleep(xs[i].wake)
  {
    if i > 0 {
      SleeperIs(xs[1..], pc, s - {xs[0].t}, i - 1);
    }
  }

  lemma {:induction false} SleeperAt(xs: seq<Sleeper>, pc: map<nat, Pc>, s: set<nat>, t: nat) returns (i: nat)
    requires SleepersOf(xs, pc, s) && t in s
    ensures i < |xs| && xs[i].t == t
  {
    if xs[0].t == t {
      i := 0;
    } else {
      i := SleeperAt(xs[1..], pc, s - {xs[0].t}, t);
      i := i + 1;
    }
  }

  /** The sleep list names exactly the threads that sleep. */
  lemma SleepExactly(k: State, t: nat)
    requires Inv(k)
    ensures OnSleep(k, t) <==> t in k.pc && k.pc[t].Asleep?
  {
    var s, xs := SleepSet(k.pc), k.clock.sleepers;
    forall i | 0 <= i < |xs| ensures xs[i].t in s {
      SleeperIs(xs, k.pc, s, i);
    }
    if t in s {
      var i := SleeperAt(xs, k.pc, s, t);
      assert xs[i].t == t;
    }
  }

  /** A thread's list element is on at most one list, and a thread that is on one is
      not running. */
  lemma OneList(k: State, t: nat, s: SemaId, s': SemaId)
    requires Inv(k)
    ensures !(OnReady(k, t) && OnSleep(k, t)) && !(OnReady(k, t) && OnWait(k, s, t))
    ensures !(OnSleep(k, t) && OnWait(k, s, t))
    ensures OnWait(k, s, t) && OnWait(k, s', t) ==> s == s'
    ensures OnReady(k, t) || OnSleep(k, t) || OnWait(k, s, t) ==> t != k.sc.cur
  {
    ReadyExactly(k, t);
    SleepExactly(k, t);
    if s in k.semas {
      WaitExactly(k, s, t);
    }
    if s' in k.semas {
      WaitExactly(k, s', t);
    }
  }

  // ---------------------------------------------------------------------
  // Semaphores, locks and condition variables
  // ---------------------------------------------------------------------

  /** No wakeup is lost, and the value counts the ups and the completed downs. */
  lemma NoLostWakeup(k: State, s: SemaId)
    requires Inv(k) && s in k.semas
    ensures k.semas[s].waiters != [] ==> k.semas[s].value <= |WokenSet(k.pc, s)|
    ensures k.semas[s].value == k.semas[s].init + k.semas[s].ups - k.semas[s].downs
  {
    assert SemaOk(k.semas[s], s, k.pc);
  }

  /** t has completed the sema_down() of a lock_acquire() and not yet the sema_up() of
      the lock_release(). */
  ghost predicate Inside(k: State, l: nat, t: nat)
    requires l in k.locks
  {
    k.locks[l].holder == Some(t) || (t in k.pc && Transit(k.pc[t]) == Some(l))
  }

  /** Mutual exclusion: the value of a lock's semaphore and the threads inside the
      lock make one, a holder is inside, and no other thread is. */
  lemma MutualExclusion(k: State, l: nat, t: nat, u: nat)
    requires Inv(k) && l in k.locks
    ensures OfLock(l) in k.semas && k.semas[OfLock(l)].value == if k.locks[l].inside.None? then 1 else 0
    ensures k.locks[l].holder == Some(t) ==> k.locks[l].inside == Some(t)
    ensures Inside(k, l, t) <==> k.locks[l].inside == Some(t)
    ensures Inside(k, l, t) && Inside(k, l, u) ==> t == u
  {
    assert LockOk(k.semas, l, k.locks[l]);
  }

  /** The list of a condition variable only names threads that are still inside
      cond_wait() on it and that have not been signalled. */
  lemma WaitersInside(k: State, c: CondId, i: nat)
    requires Inv(k) && c in k.conds && i < |k.conds[c]|
    ensures var t := k.conds[c][i];
      t in k.pc && PhaseOf(k.pc[t], t) == InWait(c, false) && OfWaiter(t) in k.semas && k.semas[OfWaiter(t)].ups == 0
  {
    ListExact(k.conds[c], ListSet(k.stage, c), i);
    var t := k.conds[c][i];
    assert StageOk(k.stage[t], k.semas, k.pc, t);
  }

  /** A signal between lock_release() and sema_down() in cond_wait() is not missed: a
      signalled thread finds its semaphore up, and only unsignalled ones wait. */
  lemma SignalNotMissed(k: State, t: nat, c: CondId)
    requires Inv(k) && t in k.pc && PhaseOf(k.pc[t], t) == InWait(c, false)
    ensures OfWaiter(t) in k.semas && k.semas[OfWaiter(t)].ups <= 1
    ensures k.semas[OfWaiter(t)].value == k.semas[OfWaiter(t)].ups
    ensures k.pc[t].Waiting? ==> k.semas[OfWaiter(t)].ups == 0
  {
    OnlyPosted(k, t, c);
    var s := OfWaiter(t);
    assert SemaOk(k.semas[s], s, k.pc);
    if k.pc[t].Waiting? {
      assert t in WaitSet(k.pc, s);
      var i := ListFind(k.semas[s].waiters, WaitSet(k.pc, s), t);
      forall u | u in k.pc ensures !(k.pc[u].Woken? && k.pc[u].s == s) {
        assert PcOk(k.pc[u], u, k.semas.Keys, k.locks.Keys, k.conds.Keys);
      }
      assert WokenSet(k.pc, s) == {};
    }
  }

  /** cond_wait() returns with the lock held, after exactly one signal. */
  lemma CondWaitReturns(k: State, c: CondId)
    requires Inv(k) && !k.intrOff && k.pc[k.sc.cur] == SetHolder(c.lock, Some(c))
    ensures Enabled(k, Next) && k.sc.cur in k.sc.status
    ensures var r := Apply(k, Next);
      && r.pc[k.sc.cur] == Free && HeldByCurrent(r, c.lock)
      && OfWaiter(k.sc.cur) in k.semas && k.semas[OfWaiter(k.sc.cur)].ups == 1
  {
    SetHolderKeeps(k, c.lock, Some(c));
  }

  // ---------------------------------------------------------------------
  // Round robin
  // ---------------------------------------------------------------------

  /** What a step does to the ready list.  It is only appended to, unless the step
      calls schedule(): then the first thread runs and the others move up. */
  ghost predicate ReadyMoves(k: State, step: Step, r: State) {
    && (!r.intrOff ==> k.sc.ready <= r.sc.ready && r.sc.threadTicks == k.sc.threadTicks + (if step.Tick? then 1 else 0))
    && (r.intrOff && k.sc.ready != [] ==>
          r.sc.cur == k.sc.ready[0] && k.sc.ready[1..] <= r.sc.ready && r.sc.threadTicks == 0)
  }

  lemma SwitchMoves(k: State, sc: Sched, step: Step, r: State)
    requires k.sc.ready <= sc.ready && sc.cur in sc.status && r.intrOff && r.sc == Schedule(sc)
    ensures ReadyMoves(k, step, r)
  {
    if k.sc.ready != [] {
      assert sc.ready[0] == k.sc.ready[0];
    }
  }

  lemma DownMoves(k: State, s: SemaId, cont: Cont, step: Step)
    requires s in k.semas && k.sc.cur in k.sc.status && !step.Tick?
    ensures ReadyMoves(k, step, DownSema(k, s, cont))
  {
    if k.semas[s].value == 0 {
      SwitchMoves(k, Block(k.sc), step, DownSema(k, s, cont));
    }
  }

  lemma TickMoves(k: State)
    requires k.sc.cur in k.sc.status && !k.intrOff
    ensures ReadyMoves(k, Tick, EndTick(StartTick(k)))
  {
    var now := k.clock.ticks + 1;
    WakeExactly(k.sc, k.pc, k.clock.sleepers, now);
    WakeTicks(k.sc, k.pc, k.clock.sleepers, now);
    var m := StartTick(k);
    if m.sc.threadTicks + 1 >= TIME_SLICE {
      SwitchMoves(k, Yield(m.sc), Tick, EndTick(m));
    }
  }

  lemma {:induction false} WakeTicks(sc: Sched, pc: map<nat, Pc>, xs: seq<Sleeper>, now: int)
    ensures WakeDue(sc, pc, xs, now).0.threadTicks == sc.threadTicks
    decreases |xs|
  {
    if xs != [] && xs[0].wake <= now {
      WakeTicks(Unblock(sc, xs[0].t), pc[xs[0].t := Free], xs[1..], now);
    }
  }

  lemma ContinueMoves(k: State)
    requires k.sc.cur in k.sc.status && k.sc.cur in k.pc && !k.intrOff && CanGoOn(k, k.pc[k.sc.cur])
    ensures ReadyMoves(k, Next, Continue(k, k.pc[k.sc.cur]))
  {
    match k.pc[k.sc.cur]
    case Down(s, cont) => DownMoves(k, s, cont, Next);
    case SleepCall(wake) => SwitchMoves(k, Block(k.sc), Next, Continue(k, k.pc[k.sc.cur]));
    case _ =>
  }

  lemma StepMoves(k: State, step: Step)
    requires Enabled(k, step) && k.sc.cur in k.sc.status && k.sc.cur in k.pc
    ensures ReadyMoves(k, step, Apply(k, step))
  {
    var r := Apply(k, step);
    match step
    case Tick => TickMoves(k);
    case Resume => if k.pc[k.sc.cur].Woken? && k.pc[k.sc.cur].s in k.semas {
      DownMoves(k, k.pc[k.sc.cur].s, k.pc[k.sc.cur].cont, step);
    }
    case Next => ContinueMoves(k);
    case IdleBlock => SwitchMoves(k, Block(k.sc), step, r);
    case YieldStep => SwitchMoves(k, Yield(k.sc), step, r);
    case ExitStep => SwitchMoves(k, Exit(k.sc), step, r);
    case DownStep(n) => DownMoves(k, Plain(n), Return, step);
    case AcquireStep(l) => DownMoves(k, OfLock(l), TakeLock(l, None), step);
    case TryAcquireStep(l) => DownMoves(k, OfLock(l), TakeLock(l, None), step);
    case _ =>
  }

  function TickCount(steps: seq<Step>): (n: nat) {
    if steps == [] then 0 else TickCount(steps[..|steps| - 1]) + (if steps[|steps| - 1].Tick? then 1 else 0)
  }

  /** How many of the steps called schedule(). */
  ghost function SwitchCount(ks: seq<State>, n: nat): (m: nat)
    requires n < |ks|
  {
    if n == 0 then 0 else SwitchCount(ks, n - 1) + (if ks[n].intrOff then 1 else 0)
  }

  lemma SliceNotOver(ks: seq<State>, steps: seq<Step>, n: nat)
    requires IsRun(ks, steps) && Inv(ks[0]) && n < |ks|
    ensures ks[n].sc.threadTicks < TIME_SLICE
  {
    RunKeeps(ks, steps, n);
  }

  lemma MovesAt(ks: seq<State>, steps: seq<Step>, n: nat)
    requires IsRun(ks, steps) && n < |steps|
    ensures ReadyMoves(ks[n], steps[n], ks[n + 1])
  {
    assert ks[n + 1] == Apply(ks[n], steps[n]);
    StepMoves(ks[n], steps[n]);
  }

  /** The place of a ready thread that is not dispatched, and the ticks left to it. */
  lemma MoveUp(k: State, step: Step, r: State, q: nat)
    requires ReadyMoves(k, step, r) && q < |k.sc.ready| && r.sc.cur != k.sc.ready[q] && k.sc.threadTicks < TIME_SLICE
    ensures var q' := if r.intrOff then q - 1 else q;
      && 0 <= q' < |r.sc.ready| && r.sc.ready[q'] == k.sc.ready[q]
      && k.sc.threadTicks + (if step.Tick? then 1 else 0) <= r.sc.threadTicks + (if r.intrOff then TIME_SLICE else 0)
  {
    if r.intrOff && q > 0 {
      assert k.sc.ready[1..][q - 1] == k.sc.ready[q];
    }
  }

  /** A sequence of states in which ready lists move as steps move them. */
  ghost predicate Moving(ks: seq<State>, steps: seq<Step>) {
    && |ks| == |steps| + 1 && (forall i {:trigger ks[i]} :: 0 <= i < |ks| ==> ks[i].sc.threadTicks < TIME_SLICE)
    && (forall i {:trigger steps[i]} :: 0 <= i < |steps| ==> ReadyMoves(ks[i], steps[i], ks[i + 1]))
  }

  lemma RunMoves(ks: seq<State>, steps: seq<Step>)
    requires IsRun(ks, steps) && Inv(ks[0])
    ensures Moving(ks, steps)
  {
    forall i | 0 <= i < |ks| ensures ks[i].sc.threadTicks < TIME_SLICE {
      SliceNotOver(ks, steps, i);
    }
    forall i | 0 <= i < |steps| ensures ReadyMoves(ks[i], steps[i], ks[i + 1]) {
      MovesAt(ks, steps, i);
    }
  }

  lemma {:induction false} MovingUp(ks: seq<State>, steps: seq<Step>, p: nat, n: nat)
    requires Moving(ks, steps) && n < |ks| && p < |ks[0].sc.ready|
    requires forall i {:trigger ks[i]} :: 1 <= i <= n ==> ks[i].sc.cur != ks[0].sc.ready[p]
    ensures var m := SwitchCount(ks, n);
      && m <= p && p - m < |ks[n].sc.ready| && ks[n].sc.ready[p - m] == ks[0].sc.ready[p]
      && TickCount(steps[..n]) + ks[0].sc.threadTicks <= TIME_SLICE * m + ks[n].sc.threadTicks
  {
    if n > 0 {
      MovingUp(ks, steps, p, n - 1);
      assert ReadyMoves(ks[n - 1], steps[n - 1], ks[n]);
      MoveUp(ks[n - 1], steps[n - 1], ks[n], p - SwitchCount(ks, n - 1));
      assert steps[..n][..n - 1] == steps[..n - 1];
    } else {
      assert steps[..0] == [];
    }
  }

  /** A ready thread at position p that has not run yet has moved up one place with
      every schedule(), so it runs by the (p+1)-th; and in the meantime there were
      fewer than TIME_SLICE * (p + 1) timer ticks. */
  lemma RoundRobin(ks: seq<State>, steps: seq<Step>, p: nat, n: nat)
    requires IsRun(ks, steps) && Inv(ks[0]) && p < |ks[0].sc.ready| && n < |ks|
    requires forall i {:trigger ks[i]} :: 1 <= i <= n ==> ks[i].sc.cur != ks[0].sc.ready[p]
    ensures SwitchCount(ks, n) <= p && TickCount(steps[..n]) < TIME_SLICE * (p + 1)
    ensures var q := p - SwitchCount(ks, n); q < |ks[n].sc.ready| && ks[n].sc.ready[q] == ks[0].sc.ready[p]
  {
    RunMoves(ks, steps);
    MovingUp(ks, steps, p, n);
  }

  // ---------------------------------------------------------------------
  // The alarm clock
  // ---------------------------------------------------------------------

  /** The sleep list is sorted by wake tick with ties in arrival order. */
  lemma SleepersInOrder(k: State, i: nat, j: nat)
    requires Inv(k) && i < j < |k.clock.sleepers|
    ensures Earlier(k.clock.sleepers[i], k.clock.sleepers[j])
  {
  }

  lemma TickSleepers(k: State)
    requires k.sc.cur in k.sc.status && k.sc.cur in k.pc && Enabled(k, Tick) && InOrder(k.clock.sleepers)
    ensures var r := Apply(k, Tick);
      && r.clock.ticks == k.clock.ticks + 1
      && forall i :: 0 <= i < |r.clock.sleepers| ==> r.clock.ticks < r.clock.sleepers[i].wake
  {
    WakeExactly(k.sc, k.pc, k.clock.sleepers, k.clock.ticks + 1);
    DueIsAll(k.clock.sleepers, k.clock.ticks + 1);
  }

  lemma AsleepAt(k: State, t: nat) returns (i: nat)
    requires Inv(k) && t in k.pc && k.pc[t].Asleep?
    ensures i < |k.clock.sleepers| && k.clock.sleepers[i].t == t && k.pc[t] == Asleep(k.clock.sleepers[i].wake)
  {
    i := SleeperAt(k.clock.sleepers, k.pc, SleepSet(k.pc), t);
    SleeperIs(k.clock.sleepers, k.pc, SleepSet(k.pc), i);
  }

  /** After a timer interrupt no thread that still sleeps is due. */
  lemma NoneOverdue(k: State, t: nat)
    requires Inv(k) && Enabled(k, Tick)
    ensures k.sc.cur in k.sc.status && k.sc.cur in k.pc
    ensures var r := Apply(k, Tick); t in r.pc && r.pc[t].Asleep? ==> r.clock.ticks < r.pc[t].wake
  {
    var r := Apply(k, Tick);
    TickSleepers(k);
    StepKeeps(k, Tick);
    if t in r.pc && r.pc[t].Asleep? {
      var i := AsleepAt(r, t);
    }
  }

  /** The loop of timer_interrupt() only touches threads that are due. */
  lemma {:induction false} WakePcs(sc: Sched, pc: map<nat, Pc>, xs: seq<Sleeper>, now: int, t: nat)
    requires forall i :: 0 <= i < |xs| ==> xs[i].wake <= now ==> xs[i].t != t
    ensures t in pc ==> t in WakeDue(sc, pc, xs, now).1 && WakeDue(sc, pc, xs, now).1[t] == pc[t]
    decreases |xs|
  {
    if xs != [] && xs[0].wake <= now {
      WakePcs(Unblock(sc, xs[0].t), pc[xs[0].t := Free], xs[1..], now, t);
    }
  }

  /** Apart from the timer interrupt, a step only moves the current thread and a
      thread that waits for a semaphore. */
  lemma OthersStay(k: State, step: Step, t: nat)
    requires Enabled(k, step) && k.sc.cur in k.sc.status && k.sc.cur in k.pc && !step.Tick?
    requires SchedInv(k.sc, k.pc) && SemaInv(k.semas, k.pc) && t in k.pc && t != k.sc.cur && !k.pc[t].Waiting?
    ensures t in Apply(k, step).pc && Apply(k, step).pc[t] == k.pc[t]
  {
    match step
    case UpStep(n) => UpMoves(k, Plain(n), t);
    case Next => ContinueStays(k, k.pc[k.sc.cur], t);
    case _ =>
  }

  lemma ContinueStays(k: State, p: Pc, t: nat)
    requires k.sc.cur in k.sc.status && CanGoOn(k, p)
    requires SchedInv(k.sc, k.pc) && SemaInv(k.semas, k.pc) && t in k.pc && t != k.sc.cur && !k.pc[t].Waiting?
    ensures t in Continue(k, p).pc && Continue(k, p).pc[t] == k.pc[t]
  {
    match p
    case Release(l, c) => UpMoves(k, OfLock(l), t);
    case SignalUp(c, w, more) => UpMoves(k, OfWaiter(w), t);
    case _ => OwnStep(k, p, t);
  }

  lemma OwnStep(k: State, p: Pc, t: nat)
    requires k.sc.cur in k.sc.status && CanGoOn(k, p) && !p.Release? && !p.SignalUp?
    requires t in k.pc && t != k.sc.cur
    ensures t in Continue(k, p).pc && Continue(k, p).pc[t] == k.pc[t]
  {
  }

  lemma UpMoves(k: State, s: SemaId, t: nat)
    requires s in k.semas && SchedInv(k.sc, k.pc) && SemaInv(k.semas, k.pc) && t in k.pc && !k.pc[t].Waiting?
    ensures t in UpSema(k, s).pc && UpSema(k, s).pc[t] == k.pc[t]
  {
    if k.semas[s].waiters != [] {
      FirstWaiter(k, s);
    }
  }

  /** A thread sleeps on until a timer interrupt at or after its wake tick. */
  lemma NoEarlyWake(k: State, step: Step, t: nat)
    requires Inv(k) && Enabled(k, step) && t in k.pc && k.pc[t].Asleep?
    ensures k.sc.cur in k.sc.status && k.sc.cur in k.pc
    ensures var r := Apply(k, step);
      t in r.pc && (r.pc[t] == k.pc[t] || (step.Tick? && k.pc[t].wake <= r.clock.ticks))
  {
    if step.Tick? {
      TickWakes(k, t);
    } else {
      OthersStay(k, step, t);
    }
  }

  lemma TickWakes(k: State, t: nat)
    requires SchedInv(k.sc, k.pc) && AlarmInv(k.clock, k.pc) && Enabled(k, Tick) && t in k.pc && k.pc[t].Asleep?
    ensures var r := Apply(k, Tick); t in r.pc && (r.pc[t] == k.pc[t] || k.pc[t].wake <= r.clock.ticks)
  {
    var now := k.clock.ticks + 1;
    if now < k.pc[t].wake {
      forall i | 0 <= i < |k.clock.sleepers| && k.clock.sleepers[i].wake <= now ensures k.clock.sleepers[i].t != t {
        SleeperIs(k.clock.sleepers, k.pc, SleepSet(k.pc), i);
      }
      WakePcs(k.sc, k.pc, k.clock.sleepers, now, t);
    }
    WakeKeys(k.sc, k.pc, k.clock.sleepers, now);
  }

  lemma {:induction false} WakeKeys(sc: Sched, pc: map<nat, Pc>, xs: seq<Sleeper>, now: int)
    ensures pc.Keys <= WakeDue(sc, pc, xs, now).1.Keys
    decreases |xs|
  {
    if xs != [] && xs[0].wake <= now {
      WakeKeys(Unblock(sc, xs[0].t), pc[xs[0].t := Free], xs[1..], now);
    }
  }

  /** t has called timer_sleep() to be woken at wake, and has not returned. */
  predicate Sleeping(p: Pc, wake: int) {
    p == SleepCall(wake) || p == Asleep(wake)
  }

  lemma TicksGrow(k: State, step: Step)
    requires Enabled(k, step) && k.sc.cur in k.sc.status && k.sc.cur in k.pc
    ensures Apply(k, step).clock.ticks == k.clock.ticks + if step.Tick? then 1 else 0
  {
    if step.Next? { ContinueTicks(k, k.pc[k.sc.cur]); }
  }

  lemma ContinueTicks(k: State, p: Pc)
    requires CanGoOn(k, p) && k.sc.cur in k.sc.status
    ensures Continue(k, p).clock.ticks == k.clock.ticks
  {
  }

  /** The current thread, inside timer_sleep(), only goes on to sleep. */
  lemma GoesToSleep(k: State, step: Step, wake: int)
    requires Inv(k) && Enabled(k, step) && !step.Tick? && k.pc[k.sc.cur] == SleepCall(wake)
    ensures k.sc.cur in k.sc.status && k.sc.cur in k.pc
    ensures var r := Apply(k, step); k.sc.cur in r.pc && Sleeping(r.pc[k.sc.cur], wake)
  {
    if step.UpStep? {
      UpMoves(k, Plain(step.n), k.sc.cur);
    }
  }

  lemma TickSpares(k: State, t: nat)
    requires Inv(k) && Enabled(k, Tick) && t in k.pc && !k.pc[t].Asleep?
    ensures t in Apply(k, Tick).pc && Apply(k, Tick).pc[t] == k.pc[t]
  {
    forall i | 0 <= i < |k.clock.sleepers| ensures k.clock.sleepers[i].t != t {
      SleeperIs(k.clock.sleepers, k.pc, SleepSet(k.pc), i);
    }
    WakePcs(k.sc, k.pc, k.clock.sleepers, k.clock.ticks + 1, t);
  }

  /** No step makes a thread return from timer_sleep() before its wake tick. */
  lemma SleepsOn(k: State, step: Step, t: nat, wake: int)
    requires Inv(k) && Enabled(k, step) && t in k.pc && Sleeping(k.pc[t], wake)
    ensures k.sc.cur in k.sc.status && k.sc.cur in k.pc
    ensures
      var r := Apply(k, step);
      t in r.pc && (Sleeping(r.pc[t], wake) || wake <= r.clock.ticks)
  {
    if k.pc[t].Asleep? {
      NoEarlyWake(k, step, t);
    } else if step.Tick? {
      TickSpares(k, t);
    } else if t == k.sc.cur {
      GoesToSleep(k, step, wake);
    } else {
      OthersStay(k, step, t);
    }
  }

  lemma {:induction false} TicksOfRun(ks: seq<State>, steps: seq<Step>, i: nat, j: nat)
    requires IsRun(ks, steps) && i <= j < |ks|
    ensures ks[i].clock.ticks <= ks[j].clock.ticks
  {
    if i < j {
      TicksOfRun(ks, steps, i, j - 1);
      assert ks[j] == Apply(ks[j - 1], steps[j - 1]);
      TicksGrow(ks[j - 1], steps[j - 1]);
    }
  }

  /** A thread that calls timer_sleep (n) is still in it as long as the clock shows less
      than n ticks after the call, whatever happens in between. */
  lemma {:induction false} SleepsLongEnough(ks: seq<State>, steps: seq<Step>, i: nat, j: nat)
    requires IsRun(ks, steps) && Inv(ks[0]) && i < j < |ks| && steps[i].SleepStep?
    requires ks[j].clock.ticks < ks[i].clock.ticks + steps[i].duration
    ensures
      var t := ks[i].sc.cur;
      t in ks[j].pc && Sleeping(ks[j].pc[t], ks[i].clock.ticks + steps[i].duration)
  {
    if i < j - 1 {
      TicksOfRun(ks, steps, j - 1, j);
      SleepsLongEnough(ks, steps, i, j - 1);
      RunKeeps(ks, steps, j - 1);
      SleepsOnAt(ks, steps, j - 1, ks[i].sc.cur, ks[i].clock.ticks + steps[i].duration);
    } else {
      CallsSleep(ks, steps, i);
    }
  }

  lemma SleepsOnAt(ks: seq<State>, steps: seq<Step>, j: nat, t: nat, wake: int)
    requires IsRun(ks, steps) && j < |steps| && Inv(ks[j]) && t in ks[j].pc && Sleeping(ks[j].pc[t], wake)
    ensures t in ks[j + 1].pc && (Sleeping(ks[j + 1].pc[t], wake) || wake <= ks[j + 1].clock.ticks)
  {
    assert ks[j + 1] == Apply(ks[j], steps[j]);
    SleepsOn(ks[j], steps[j], t, wake);
  }

  lemma CallsSleep(ks: seq<State>, steps: seq<Step>, i: nat)
    requires IsRun(ks, steps) && i < |steps| && steps[i].SleepStep?
    ensures ks[i + 1].pc == ks[i].pc[ks[i].sc.cur := SleepCall(ks[i].clock.ticks + steps[i].duration)]
  {
    assert ks[i + 1] == Apply(ks[i], steps[i]);
  }

  // ---------------------------------------------------------------------
  // Every run
  // ---------------------------------------------------------------------

  /** What the theorems above say of a state, its threads t and u, its semaphores s and s',
      its lock l and its condition variable c. */
  ghost predicate Safe(k: State, t: nat, u: nat, s: SemaId, s': SemaId, l: nat, c: CondId) {
    && (t in k.sc.status && k.sc.status[t] == Running <==> t == k.sc.cur)
    && !(OnReady(k, t) && OnSleep(k, t)) && !(OnReady(k, t) && OnWait(k, s, t)) && !(OnSleep(k, t) && OnWait(k, s, t))
    && (OnWait(k, s, t) && OnWait(k, s', t) ==> s == s')
    && (s in k.semas && k.semas[s].waiters != [] ==> k.semas[s].value <= |WokenSet(k.pc, s)|)
    && (l in k.locks ==> OfLock(l) in k.semas)
    && (l in k.locks && Inside(k, l, t) ==> k.semas[OfLock(l)].value == 0)
    && (l in k.locks && Inside(k, l, t) && Inside(k, l, u) ==> t == u)
    && (t in k.pc && PhaseOf(k.pc[t], t) == InWait(c, false) && k.pc[t].Waiting? ==>
          OfWaiter(t) in k.semas && k.semas[OfWaiter(t)].ups == 0)
  }

  lemma InvIsSafe(k: State, t: nat, u: nat, s: SemaId, s': SemaId, l: nat, c: CondId)
    requires Inv(k)
    ensures Safe(k, t, u, s, s', l, c)
  {
    OneRunning(k, t);
    OneList(k, t, s, s');
    if s in k.semas { NoLostWakeup(k, s); }
    if l in k.locks { MutualExclusion(k, l, t, u); }
    if t in k.pc && PhaseOf(k.pc[t], t) == InWait(c, false) { SignalNotMissed(k, t, c); }
  }

  /** In every state of every run from an initial state one thread runs, no thread is on two
      lists, no wakeup is lost, at most one thread is inside a lock and none while its
      semaphore is up, and no thread that was signalled waits for its signal. */
  lemma RunSafety(ks: seq<State>, steps: seq<Step>, n: nat, t: nat, u: nat, s: SemaId, s': SemaId, l: nat, c: CondId)
    requires IsRun(ks, steps) && Initial(ks[0]) && n < |ks|
    ensures Inv(ks[n]) && Safe(ks[n], t, u, s, s', l, c)
  {
    InitialInv(ks[0]);
    RunKeeps(ks, steps, n);
    InvIsSafe(ks[n], t, u, s, s', l, c);
  }
}
