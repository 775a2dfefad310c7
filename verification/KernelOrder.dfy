/** Who runs and who is woken next: the order of the wait lists, thread_yield(),
    thread_exit() and the time slice, over whole runs. */
module KernelOrder {
  import opened Options
  import opened DistinctLists
  import opened Threads
  import opened Scheduling
  import opened Alarm
  import opened Semaphores
  import opened Kernel
  import opened KernelSafety
  import opened KernelTheorems
  import C = KernelCalls

  // ---------------------------------------------------------------------
  // Wait lists
  // ---------------------------------------------------------------------

  /** A step of the current thread t leaves a semaphore's list alone, puts t at its end, or
      ups the semaphore and takes off the first thread. */
  predicate QueueStep(x: Sema, y: Sema, t: nat) {
    || (y.ups == x.ups && (y.waiters == x.waiters || y.waiters == x.waiters + [t]))
    || (y.ups == x.ups + 1 && y.waiters == if x.waiters == [] then [] else x.waiters[1..])
  }

  ghost predicate QueueMoves(k: State, r: State, s: SemaId)
    requires s in k.semas
  {
    s in r.semas && QueueStep(k.semas[s], r.semas[s], k.sc.cur)
  }

  lemma DownQueue(k: State, s: SemaId, s': SemaId, cont: Cont)
    requires s in k.semas && s' in k.semas && k.sc.cur in k.sc.status
    ensures QueueMoves(k, DownSema(k, s', cont), s)
  {
  }

  lemma UpQueue(k: State, s: SemaId, s': SemaId)
    requires s in k.semas && s' in k.semas
    ensures QueueMoves(k, UpSema(k, s'), s)
  {
  }

  lemma ContinueQueue(k: State, p: Pc, s: SemaId)
    requires s in k.semas && k.sc.cur in k.sc.status && CanGoOn(k, p)
    ensures QueueMoves(k, Continue(k, p), s)
  {
    match p
    case Down(s', cont) => DownQueue(k, s, s', cont);
    case Release(l, _) => UpQueue(k, s, OfLock(l));
    case SignalUp(_, w, _) => UpQueue(k, s, OfWaiter(w));
    case _ =>
  }

  lemma StepQueue(k: State, step: Step, s: SemaId)
    requires Enabled(k, step) && k.sc.cur in k.sc.status && k.sc.cur in k.pc && s in k.semas
    requires s != OfWaiter(k.sc.cur)
    ensures QueueMoves(k, Apply(k, step), s)
  {
    match step
    case Next => ContinueQueue(k, k.pc[k.sc.cur], s);
    case Resume =>
      if k.pc[k.sc.cur].Woken? && k.pc[k.sc.cur].s in k.semas {
        DownQueue(k, s, k.pc[k.sc.cur].s, k.pc[k.sc.cur].cont);
      }
    case DownStep(n) => DownQueue(k, s, Plain(n), Return);
    case AcquireStep(l) => DownQueue(k, s, OfLock(l), TakeLock(l, None));
    case TryAcquireStep(l) => DownQueue(k, s, OfLock(l), TakeLock(l, None));
    case _ =>
  }

  /** Thread t is on the list of s. */
  predicate WaitsFor(k: State, s: SemaId, t: nat) {
    t in k.pc && k.pc[t].Waiting? && k.pc[t].s == s
  }

  /** No thread waits for the current thread's own semaphore. */
  lemma NotOwn(k: State, s: SemaId, t: nat)
    requires Inv(k) && WaitsFor(k, s, t)
    ensures s in k.semas && s != OfWaiter(k.sc.cur) && t != k.sc.cur
  {
    assert PcOk(k.pc[t], t, k.semas.Keys, k.locks.Keys, k.conds.Keys);
  }

  /** A thread at place q of x's list, with x.ups ups behind it, is at the place of y's list
      that later ups have brought it to. */
  predicate MovedUp(x: Sema, y: Sema, q: nat) {
    && q < |x.waiters| && x.ups <= y.ups <= x.ups + q
    && q - (y.ups - x.ups) < |y.waiters| && y.waiters[q - (y.ups - x.ups)] == x.waiters[q]
  }

  /** The first thread is not on a list that it was taken off. */
  lemma TakenOff(x: Sema, s: SemaId, pc: map<nat, Pc>, y: Sema, pc': map<nat, Pc>)
    requires SemaOk(x, s, pc) && SemaOk(y, s, pc') && x.waiters != [] && x.waiters[0] in WaitSet(pc', s)
    ensures y.waiters != x.waiters[1..]
  {
    ListExact(x.waiters, WaitSet(pc, s), 0);
    var i := ListFind(y.waiters, WaitSet(pc', s), x.waiters[0]);
    assert forall m :: 0 <= m < |x.waiters[1..]| ==> x.waiters[1..][m] == x.waiters[m + 1];
  }

  lemma QueuePlace(x: Sema, s: SemaId, pc: map<nat, Pc>, y: Sema, pc': map<nat, Pc>, t: nat, q: nat)
    requires SemaOk(x, s, pc) && SemaOk(y, s, pc') && QueueStep(x, y, t)
    requires q < |x.waiters| && x.waiters[q] in WaitSet(pc', s)
    ensures MovedUp(x, y, q)
  {
    if q == 0 { TakenOff(x, s, pc, y, pc'); }
  }

  lemma KeepsPlace(k: State, step: Step, s: SemaId, q: nat)
    requires Inv(k) && Enabled(k, step) && s in k.semas && q < |k.semas[s].waiters|
    requires WaitsFor(k, s, k.semas[s].waiters[q]) && k.sc.cur in k.sc.status && k.sc.cur in k.pc
    requires Inv(Apply(k, step)) && WaitsFor(Apply(k, step), s, k.semas[s].waiters[q])
    ensures s in Apply(k, step).semas && MovedUp(k.semas[s], Apply(k, step).semas[s], q)
  {
    var r := Apply(k, step);
    NotOwn(k, s, k.semas[s].waiters[q]);
    StepQueue(k, step, s);
    assert SemaOk(k.semas[s], s, k.pc) && SemaOk(r.semas[s], s, r.pc);
    QueuePlace(k.semas[s], s, k.pc, r.semas[s], r.pc, k.sc.cur, q);
  }

  /** Wherever t is on the list of s in k, it has moved up in r. */
  ghost predicate MovesUp(k: State, r: State, s: SemaId, t: nat) {
    s in k.semas ==>
      && s in r.semas
      && forall q: nat {:trigger k.semas[s].waiters[q]} ::
           q < |k.semas[s].waiters| && k.semas[s].waiters[q] == t ==> MovedUp(k.semas[s], r.semas[s], q)
  }

  lemma MovesUpAt(ks: seq<State>, steps: seq<Step>, n: nat, s: SemaId, t: nat)
    requires IsRun(ks, steps) && n < |steps| && Inv(ks[n]) && Inv(ks[n + 1])
    requires WaitsFor(ks[n], s, t) && WaitsFor(ks[n + 1], s, t)
    ensures MovesUp(ks[n], ks[n + 1], s, t)
  {
    assert ks[n + 1] == Apply(ks[n], steps[n]);
    if s in ks[n].semas {
      NotOwn(ks[n], s, t);
      StepQueue(ks[n], steps[n], s);
      forall q: nat | q < |ks[n].semas[s].waiters| && ks[n].semas[s].waiters[q] == t
        ensures MovedUp(ks[n].semas[s], ks[n + 1].semas[s], q)
      {
        KeepsPlace(ks[n], steps[n], s, q);
      }
    }
  }

  lemma MovesUpInRun(ks: seq<State>, steps: seq<Step>, n: nat, s: SemaId, t: nat)
    requires IsRun(ks, steps) && Inv(ks[0]) && n < |steps| && WaitsFor(ks[n], s, t) && WaitsFor(ks[n + 1], s, t)
    ensures MovesUp(ks[n], ks[n + 1], s, t)
  {
    RunKeeps(ks, steps, n);
    RunKeeps(ks, steps, n + 1);
    MovesUpAt(ks, steps, n, s, t);
  }

  lemma {:induction false} MovingUpList(ks: seq<State>, i: nat, j: nat, s: SemaId, p: nat)
    requires i <= j < |ks| && s in ks[i].semas && p < |ks[i].semas[s].waiters|
    requires forall m {:trigger ks[m]} :: i <= m < j ==> MovesUp(ks[m], ks[m + 1], s, ks[i].semas[s].waiters[p])
    ensures s in ks[j].semas && MovedUp(ks[i].semas[s], ks[j].semas[s], p)
  {
    if i < j {
      MovingUpList(ks, i, j - 1, s, p);
      var q := p - (ks[j - 1].semas[s].ups - ks[i].semas[s].ups);
      assert ks[j - 1].semas[s].waiters[q] == ks[i].semas[s].waiters[p];
    }
  }

  /** Semaphores are fair: a thread that found p threads before it on the list has moved up
      one place with every up, so it is woken by the (p+1)-th. */
  lemma FirstComeFirstServed(ks: seq<State>, steps: seq<Step>, i: nat, j: nat, s: SemaId, p: nat)
    requires IsRun(ks, steps) && Inv(ks[0]) && i <= j < |ks| && s in ks[i].semas && p < |ks[i].semas[s].waiters|
    requires forall m {:trigger ks[m]} :: i <= m <= j ==> WaitsFor(ks[m], s, ks[i].semas[s].waiters[p])
    ensures s in ks[j].semas && MovedUp(ks[i].semas[s], ks[j].semas[s], p)
  {
    var t := ks[i].semas[s].waiters[p];
    forall m | i <= m < j ensures MovesUp(ks[m], ks[m + 1], s, t) {
      assert WaitsFor(ks[m], s, t) && WaitsFor(ks[m + 1], s, t);
      MovesUpInRun(ks, steps, m, s, t);
    }
    MovingUpList(ks, i, j, s, p);
  }

  /** Semaphore s was upped: its value grew by one, and the thread that waited longest, if
      any, is off its list and the last ready one. */
  ghost predicate WokeFirst(k: State, r: State, s: SemaId)
    requires s in k.semas
  {
    && s in r.semas && r.semas[s].value == k.semas[s].value + 1
    && (k.semas[s].waiters == [] ==> r.semas[s].waiters == [] && r.sc == k.sc && r.pc == k.pc)
    && (k.semas[s].waiters != [] ==>
          var w := k.semas[s].waiters[0];
          && [w] + r.semas[s].waiters == k.semas[s].waiters && r.sc.ready == k.sc.ready + [w]
          && w in r.sc.status && r.sc.status[w] == Ready && w in r.pc && !OnList(r.pc[w]))
  }

  lemma UpWakes(k: State, s: SemaId)
    requires s in k.semas
    ensures WokeFirst(k, UpSema(k, s), s)
  {
  }

  lemma UpWakesFirst(k: State, n: nat)
    requires Enabled(k, UpStep(n)) && k.sc.cur in k.sc.status && k.sc.cur in k.pc
    ensures WokeFirst(k, Apply(k, UpStep(n)), Plain(n))
  {
    UpWakes(k, Plain(n));
  }

  /** sema_try_down() takes a unit if there is one and otherwise changes nothing. */
  lemma TryDownTakes(k: State, n: nat)
    requires Enabled(k, TryDownStep(n)) && k.sc.cur in k.sc.status && k.sc.cur in k.pc
    ensures
      var r := Apply(k, TryDownStep(n));
      && (r == k <==> k.semas[Plain(n)].value == 0)
      && (r != k ==> C.Downed(k, r, Plain(n)) && r.sc == k.sc && r.pc == k.pc)
  {
    var r := Apply(k, TryDownStep(n));
    if k.semas[Plain(n)].value > 0 {
      assert r.semas[Plain(n)].value != k.semas[Plain(n)].value;
    }
  }

  /** A step of the current thread t leaves a condition variable's list alone, puts t at its
      end, or takes off its first thread. */
  predicate ListStep(xs: seq<nat>, ys: seq<nat>, t: nat) {
    ys == xs || ys == xs + [t] || (xs != [] && [xs[0]] + ys == xs)
  }

  lemma ContinueList(k: State, p: Pc, c: CondId)
    requires c in k.conds && k.sc.cur in k.sc.status && CanGoOn(k, p)
    ensures c in Continue(k, p).conds && ListStep(k.conds[c], Continue(k, p).conds[c], k.sc.cur)
  {
  }

  /** Condition variables are first come, first served: cond_wait() joins the list at its end,
      and every thread leaves it from the front. */
  lemma StepList(k: State, step: Step, c: CondId)
    requires Enabled(k, step) && k.sc.cur in k.sc.status && k.sc.cur in k.pc && c in k.conds
    ensures c in Apply(k, step).conds && ListStep(k.conds[c], Apply(k, step).conds[c], k.sc.cur)
    ensures step == WaitStep(c) ==> Apply(k, step).conds[c] == k.conds[c] + [k.sc.cur]
  {
    if step.Next? { ContinueList(k, k.pc[k.sc.cur], c); }
  }

  // ---------------------------------------------------------------------
  // Yielding, exiting and the time slice
  // ---------------------------------------------------------------------

  /** thread_yield() turns the running thread and the ready list, in this order, by one. */
  lemma YieldRotates(k: State)
    requires Enabled(k, YieldStep) && k.sc.cur in k.sc.status && k.sc.cur in k.pc
    ensures var r := Apply(k, YieldStep); k.sc.ready + [k.sc.cur] == [r.sc.cur] + r.sc.ready && r.sc.threadTicks == 0
  {
    var q := k.sc.ready + [k.sc.cur];
    assert q == [q[0]] + q[1..];
  }

  /** Thread t has exited: it is not running, and nothing will make it ready. */
  ghost predicate Gone(k: State, t: nat) {
    t in k.pc && t != k.sc.cur && (t in k.sc.status ==> k.sc.status[t] == Dying)
  }

  lemma UpGone(k: State, s: SemaId, t: nat)
    requires SchedInv(k.sc, k.pc) && SemaInv(k.semas, k.pc) && s in k.semas && Gone(k, t)
    ensures Gone(UpSema(k, s), t)
  {
    if k.semas[s].waiters != [] { FirstWaiter(k, s); }
  }

  /** schedule() never picks a thread that exited. */
  lemma ScheduleGone(sc: Sched, pc: map<nat, Pc>, t: nat)
    requires Common(sc, pc) && t in pc && (t in sc.status ==> sc.status[t] == Dying)
    ensures var r := Schedule(sc); t != r.cur && (t in r.status ==> r.status[t] == Dying)
  {
    if sc.ready != [] {
      ListExact(sc.ready, ReadySet(sc.status, sc.idle), 0);
    }
  }

  lemma DownGone(k: State, s: SemaId, cont: Cont, t: nat)
    requires SchedInv(k.sc, k.pc) && s in k.semas && !Idle(k) && Gone(k, t)
    ensures Gone(DownSema(k, s, cont), t)
  {
    if k.semas[s].value == 0 {
      BlockKeeps(k.sc, k.pc, Waiting(s, cont));
      ScheduleGone(Block(k.sc), k.pc[k.sc.cur := Waiting(s, cont)], t);
    }
  }

  lemma ContinueGone(k: State, p: Pc, t: nat)
    requires SchedInv(k.sc, k.pc) && SemaInv(k.semas, k.pc) && CanGoOn(k, p) && !Idle(k) && Gone(k, t)
    ensures Gone(Continue(k, p), t)
  {
    match p
    case Down(s, cont) => DownGone(k, s, cont, t);
    case Release(l, _) => UpGone(k, OfLock(l), t);
    case SignalUp(_, w, _) => UpGone(k, OfWaiter(w), t);
    case SleepCall(wake) =>
      BlockKeeps(k.sc, k.pc, Asleep(wake));
      ScheduleGone(Block(k.sc), k.pc[k.sc.cur := Asleep(wake)], t);
    case _ =>
  }

  lemma {:induction false} WakeGone(sc: Sched, pc: map<nat, Pc>, xs: seq<Sleeper>, now: int, t: nat)
    requires forall i :: 0 <= i < |xs| ==> xs[i].t != t
    ensures
      var r := WakeDue(sc, pc, xs, now);
      && (t in r.0.status <==> t in sc.status) && (t in sc.status ==> r.0.status[t] == sc.status[t])
      && (t in pc ==> t in r.1)
    decreases |xs|
  {
    if xs != [] && xs[0].wake <= now {
      WakeGone(Unblock(sc, xs[0].t), pc[xs[0].t := Free], xs[1..], now, t);
    }
  }

  lemma TickGone(k: State, t: nat)
    requires Inv(k) && Enabled(k, Tick) && Gone(k, t)
    ensures Gone(Apply(k, Tick), t)
  {
    forall i | 0 <= i < |k.clock.sleepers| ensures k.clock.sleepers[i].t != t {
      SleeperIs(k.clock.sleepers, k.pc, SleepSet(k.pc), i);
    }
    WakeGone(k.sc, k.pc, k.clock.sleepers, k.clock.ticks + 1, t);
    var m := StartTick(k);
    StartTickKeeps(k);
    EndGone(m, t);
  }

  lemma EndGone(k: State, t: nat)
    requires SchedInv(k.sc, k.pc) && Gone(k, t)
    ensures Gone(EndTick(k), t)
  {
    YieldKeeps(k.sc, k.pc);
    ScheduleGone(Yield(k.sc), k.pc, t);
  }

  lemma SwitchGone(k: State, step: Step, t: nat)
    requires SchedInv(k.sc, k.pc) && Enabled(k, step) && Gone(k, t)
    requires step.IdleBlock? || step.YieldStep? || step.ExitStep?
    ensures Gone(Apply(k, step), t)
  {
    match step
    case IdleBlock =>
      BlockKeeps(k.sc, k.pc, Free);
      ScheduleGone(Block(k.sc), k.pc[k.sc.cur := Free], t);
    case YieldStep => YieldKeeps(k.sc, k.pc); ScheduleGone(Yield(k.sc), k.pc, t);
    case ExitStep => ExitKeeps(k.sc, k.pc); ScheduleGone(Exit(k.sc), k.pc, t);
  }

  lemma CallGone(k: State, step: Step, t: nat)
    requires SchedInv(k.sc, k.pc) && SemaInv(k.semas, k.pc) && Enabled(k, step) && Gone(k, t)
    requires !step.Tick? && !step.IdleBlock? && !step.YieldStep? && !step.ExitStep?
    ensures Gone(Apply(k, step), t)
  {
    match step
    case Next => ContinueGone(k, k.pc[k.sc.cur], t);
    case Resume =>
      if k.pc[k.sc.cur].Woken? && k.pc[k.sc.cur].s in k.semas {
        DownGone(k, k.pc[k.sc.cur].s, k.pc[k.sc.cur].cont, t);
      }
    case DownStep(n) => DownGone(k, Plain(n), Return, t);
    case AcquireStep(l) => DownGone(k, OfLock(l), TakeLock(l, None), t);
    case TryAcquireStep(l) => DownGone(k, OfLock(l), TakeLock(l, None), t);
    case UpStep(n) => UpGone(k, Plain(n), t);
    case _ =>
  }

  lemma StaysGone(k: State, step: Step, t: nat)
    requires Inv(k) && Enabled(k, step) && Gone(k, t)
    ensures Gone(Apply(k, step), t)
  {
    if step.Tick? {
      TickGone(k, t);
    } else if step.IdleBlock? || step.YieldStep? || step.ExitStep? {
      SwitchGone(k, step, t);
    } else {
      CallGone(k, step, t);
    }
  }

  lemma ExitsGone(k: State)
    requires Inv(k) && Enabled(k, ExitStep)
    ensures Gone(Apply(k, ExitStep), k.sc.cur)
  {
    ExitKeeps(k.sc, k.pc);
    ScheduleGone(Exit(k.sc), k.pc, k.sc.cur);
  }

  lemma StaysGoneAt(ks: seq<State>, steps: seq<Step>, n: nat, t: nat)
    requires IsRun(ks, steps) && Inv(ks[0]) && n < |steps|
    requires Gone(ks[n], t) || (steps[n].ExitStep? && t == ks[n].sc.cur)
    ensures Gone(ks[n + 1], t)
  {
    RunKeeps(ks, steps, n);
    assert ks[n + 1] == Apply(ks[n], steps[n]);
    if Gone(ks[n], t) {
      StaysGone(ks[n], steps[n], t);
    } else {
      ExitsGone(ks[n]);
    }
  }

  /** The page of thread t is free, or t is the initial thread. */
  ghost predicate Freed(k: State, t: nat) {
    t in k.sc.status ==> t == k.sc.initial
  }

  lemma FreedAt(ks: seq<State>, steps: seq<Step>, n: nat, t: nat)
    requires IsRun(ks, steps) && Inv(ks[0]) && n < |ks| && Gone(ks[n], t)
    ensures Freed(ks[n], t)
  {
    RunKeeps(ks, steps, n);
  }

  /** A thread that has called thread_exit() never runs again; its page is freed at once,
      except the initial thread's. */
  lemma {:induction false} ExitIsForGood(ks: seq<State>, steps: seq<Step>, i: nat, j: nat)
    requires IsRun(ks, steps) && Inv(ks[0]) && i < j < |ks| && steps[i].ExitStep?
    ensures Gone(ks[j], ks[i].sc.cur) && Freed(ks[j], ks[i].sc.cur)
    decreases j
  {
    if i < j - 1 { ExitIsForGood(ks, steps, i, j - 1); }
    StaysGoneAt(ks, steps, j - 1, ks[i].sc.cur);
    FreedAt(ks, steps, j, ks[i].sc.cur);
  }

  lemma ContinueStartsSlice(k: State, p: Pc)
    requires k.sc.cur in k.sc.status && CanGoOn(k, p) && !k.intrOff && Continue(k, p).intrOff
    ensures Continue(k, p).sc.threadTicks == 0
  {
  }

  /** A thread that was just switched to has its whole time slice before it. */
  lemma SwitchStartsSlice(k: State, step: Step)
    requires Enabled(k, step) && k.sc.cur in k.sc.status && k.sc.cur in k.pc && Apply(k, step).intrOff
    ensures Apply(k, step).sc.threadTicks == 0
  {
    if step.Next? { ContinueStartsSlice(k, k.pc[k.sc.cur]); }
  }

  lemma {:induction false} SliceCount(ks: seq<State>, steps: seq<Step>, i: nat, j: nat)
    requires Moving(ks, steps) && i <= j < |ks| && forall m {:trigger ks[m]} :: i < m <= j ==> !ks[m].intrOff
    ensures ks[j].sc.threadTicks == ks[i].sc.threadTicks + TickCount(steps[i..j])
  {
    if i < j {
      SliceCount(ks, steps, i, j - 1);
      assert ReadyMoves(ks[j - 1], steps[j - 1], ks[j]);
      assert steps[i..j][..j - 1 - i] == steps[i..j - 1] && steps[i..j][j - 1 - i] == steps[j - 1];
    }
  }

  lemma TickSwitches(k: State)
    requires k.sc.cur in k.sc.status && k.sc.cur in k.pc && Enabled(k, Tick) && k.sc.threadTicks < 4
    ensures Apply(k, Tick).intrOff <==> k.sc.threadTicks == 3
  {
    WakeTicks(k.sc, k.pc, k.clock.sleepers, k.clock.ticks + 1);
  }

  lemma SwitchedAt(ks: seq<State>, steps: seq<Step>, i: nat)
    requires IsRun(ks, steps) && 0 < i < |ks| && ks[i].intrOff
    ensures ks[i].sc.threadTicks == 0
  {
    assert ks[i] == Apply(ks[i - 1], steps[i - 1]);
    SwitchStartsSlice(ks[i - 1], steps[i - 1]);
  }

  lemma TickSwitchesAt(ks: seq<State>, steps: seq<Step>, j: nat)
    requires IsRun(ks, steps) && j < |steps| && steps[j].Tick? && ks[j].sc.threadTicks < 4
    ensures ks[j + 1].intrOff <==> ks[j].sc.threadTicks == 3
  {
    assert ks[j + 1] == Apply(ks[j], steps[j]);
    TickSwitches(ks[j]);
  }

  /** A thread that was switched to at the i-th state and has run since is preempted by the
      fourth timer tick, and by no earlier one. */
  lemma FourTicks(ks: seq<State>, steps: seq<Step>, i: nat, j: nat)
    requires IsRun(ks, steps) && Inv(ks[0]) && 0 < i <= j < |steps| && ks[i].intrOff && steps[j].Tick?
    requires forall m {:trigger ks[m]} :: i < m <= j ==> !ks[m].intrOff
    ensures TickCount(steps[i..j]) <= 3 && (ks[j + 1].intrOff <==> TickCount(steps[i..j]) == 3)
  {
    RunMoves(ks, steps);
    SwitchedAt(ks, steps, i);
    SliceCount(ks, steps, i, j);
    TickSwitchesAt(ks, steps, j);
  }
}
