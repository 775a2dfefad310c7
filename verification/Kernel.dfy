/** The kernel as a machine of steps on one processor.  A step is what happens with
    interrupts off, up to a context switch, or a statement between two such
    regions, or a timer interrupt. */
module Kernel {
  import opened Options
  import opened Threads
  import opened Scheduling
  import opened Alarm
  import opened Semaphores
  import opened Locks

  /** intrOff says that the current thread was just switched to: interrupts are off
      until it has finished the step in which it gave up the processor. */
  datatype State = State(sc: Sched, pc: map<nat, Pc>, clock: Clock, semas: map<SemaId, Sema>, locks: map<nat, Lock>,
                         conds: map<CondId, seq<nat>>, stage: map<nat, Stage>, intrOff: bool)

  // ---------------------------------------------------------------------
  // The parts of a step
  // ---------------------------------------------------------------------

  function ContOf(pc: map<nat, Pc>, w: nat): (cont: Cont) {
    if w in pc && pc[w].Waiting? then pc[w].cont else Return
  }

  /** sema_up() */
  function UpSema(k: State, s: SemaId): (r: State)
    requires s in k.semas
  {
    var x := k.semas[s];
    if x.waiters == [] then
      k.(semas := k.semas[s := Upped(x)])
    else
      var w := x.waiters[0];
      k.(semas := k.semas[s := Upped(x)], sc := Unblock(k.sc, w), pc := k.pc[w := Woken(s, ContOf(k.pc, w))])
  }

  /** Where a thread goes on after sema_down(). */
  function GoOn(cont: Cont): (p: Pc) {
    match cont
    case Return => Free
    case TakeLock(l, c) => SetHolder(l, c)
    case Reacquire(c) => Down(OfLock(c.lock), TakeLock(c.lock, Some(c)))
  }

  /** schedule(): what follows runs with interrupts off. */
  function Switch(k: State, sc: Sched, p: Pc): (r: State)
    requires sc.cur in sc.status
  {
    k.(sc := Schedule(sc), pc := k.pc[sc.cur := p], intrOff := true)
  }

  /** One look at the value in sema_down(): the current thread goes on, or waits. */
  function DownSema(k: State, s: SemaId, cont: Cont): (r: State)
    requires s in k.semas && k.sc.cur in k.sc.status
  {
    var t, x := k.sc.cur, k.semas[s];
    if x.value > 0 then
      k.(semas := k.semas[s := Taken(x)], pc := k.pc[t := GoOn(cont)], intrOff := false,
         locks := if s.OfLock? && s.l in k.locks then k.locks[s.l := k.locks[s.l].(inside := Some(t))] else k.locks,
         stage := if s.OfWaiter? && cont.Reacquire? then k.stage[t := Got(cont.c)] else k.stage)
    else
      Switch(k.(semas := k.semas[s := Queued(x, t)]), Block(k.sc), Waiting(s, cont))
  }

  /** The current thread goes on at p. */
  function Goto(k: State, p: Pc): (r: State) {
    k.(pc := k.pc[k.sc.cur := p])
  }

  /** The loop of timer_interrupt(): the sleepers that are due become ready. */
  function WakeDue(sc: Sched, pc: map<nat, Pc>, xs: seq<Sleeper>, now: int): (r: (Sched, map<nat, Pc>, seq<Sleeper>))
    ensures r.0.cur == sc.cur && sc.status.Keys <= r.0.status.Keys
    decreases |xs|
  {
    if xs == [] || now < xs[0].wake then (sc, pc, xs)
    else WakeDue(Unblock(sc, xs[0].t), pc[xs[0].t := Free], xs[1..], now)
  }

  // ---------------------------------------------------------------------
  // The steps
  // ---------------------------------------------------------------------

  datatype Step =
    | Tick                      // the timer interrupt
    | Resume                    // a thread that was switched to goes on
    | Next                      // the current thread goes on inside a function
    | IdleBlock                 // the idle thread's loop
    | YieldStep                 // thread_yield()
    | CreateStep(t: nat)        // thread_create()
    | ExitStep                  // thread_exit()
    | SleepStep(duration: int)  // timer_sleep(), reading the clock
    | DownStep(n: nat)          // sema_down()
    | TryDownStep(n: nat)       // sema_try_down(), by a thread or an interrupt handler
    | UpStep(n: nat)            // sema_up(), by a thread or an interrupt handler
    | AcquireStep(l: nat)       // lock_acquire()
    | TryAcquireStep(l: nat)    // lock_try_acquire()
    | ReleaseStep(l: nat)       // lock_release(), clearing the holder
    | WaitStep(c: CondId)       // cond_wait(), getting on the list
    | SignalStep(c: CondId)     // cond_signal(), taking the first thread off the list
    | BroadcastStep(c: CondId)  // cond_broadcast()

  predicate Idle(k: State) {
    k.sc.cur == k.sc.idle
  }

  /** The current thread runs its own code. */
  predicate Own(k: State) {
    !k.intrOff && !Idle(k) && k.sc.cur in k.pc && k.pc[k.sc.cur] == Free
  }

  predicate HeldByCurrent(k: State, l: nat) {
    l in k.locks && k.locks[l].holder == Some(k.sc.cur)
  }

  /** When a step can be taken; for a call, what its assertions ask of the caller. */
  predicate Enabled(k: State, step: Step) {
    match step
    case Tick => !k.intrOff
    case Resume => k.intrOff
    case Next => !k.intrOff && k.sc.cur in k.pc && CanGoOn(k, k.pc[k.sc.cur])
    case IdleBlock => !k.intrOff && Idle(k)
    case YieldStep => Own(k)
    case CreateStep(t) => Own(k) && t !in k.pc
    case ExitStep => Own(k)
    case SleepStep(_) => Own(k)
    case DownStep(n) => Own(k) && Plain(n) in k.semas
    case TryDownStep(n) => !k.intrOff && Plain(n) in k.semas
    case UpStep(n) => !k.intrOff && Plain(n) in k.semas
    case AcquireStep(l) => Own(k) && l in k.locks && OfLock(l) in k.semas && !HeldByCurrent(k, l)
    case TryAcquireStep(l) => Own(k) && l in k.locks && OfLock(l) in k.semas && !HeldByCurrent(k, l)
    case ReleaseStep(l) => Own(k) && HeldByCurrent(k, l)
    case WaitStep(c) => Own(k) && HeldByCurrent(k, c.lock) && c in k.conds
    case SignalStep(c) => Own(k) && HeldByCurrent(k, c.lock) && c in k.conds
    case BroadcastStep(c) => Own(k) && HeldByCurrent(k, c.lock) && c in k.conds
  }

  /** The thread is in the middle of a function, and the data it needs is there. */
  predicate CanGoOn(k: State, p: Pc) {
    match p
    case Down(s, _) => s in k.semas
    case SetHolder(l, _) => l in k.locks
    case Release(l, _) => l in k.locks && OfLock(l) in k.semas
    case CondRelease(c) => c.lock in k.locks
    case SignalUp(_, w, _) => OfWaiter(w) in k.semas
    case Broadcast(c) => c in k.conds
    case SleepCall(_) => true
    case _ => false
  }

  /** cond_signal() without the sema_up(): the first thread is taken off the list. */
  function Pick(k: State, c: CondId, more: bool): (r: State)
    requires c in k.conds && k.conds[c] != []
  {
    var w := k.conds[c][0];
    Goto(k, SignalUp(c, w, more)).(conds := k.conds[c := k.conds[c][1..]], stage := k.stage[w := Picked(c, k.sc.cur)])
  }

  /** The next statement of a function that the current thread is in. */
  function Continue(k: State, p: Pc): (r: State)
    requires CanGoOn(k, p) && k.sc.cur in k.sc.status
  {
    var t := k.sc.cur;
    match p
    case Down(s, cont) => DownSema(k, s, cont)
    case SetHolder(l, c) =>
      Goto(k, Free).(locks := k.locks[l := k.locks[l].(holder := Some(t))],
                     stage := if c.Some? then k.stage - {t} else k.stage)
    case Release(l, c) =>
      Goto(UpSema(k, OfLock(l)), if c.Some? then Down(OfWaiter(t), Reacquire(c.value)) else Free).(
        locks := k.locks[l := k.locks[l].(inside := None)])
    case CondRelease(c) =>
      Goto(k, Release(c.lock, Some(c))).(locks := k.locks[c.lock := k.locks[c.lock].(holder := None)])
    case SignalUp(c, w, more) =>
      Goto(UpSema(k, OfWaiter(w)), if more then Broadcast(c) else Free).(stage := k.stage[w := Posted(c)])
    case Broadcast(c) => if k.conds[c] == [] then Goto(k, Free) else Pick(k, c, true)
    case SleepCall(wake) => Switch(k.(clock := Sleep(k.clock, t, wake)), Block(k.sc), Asleep(wake))
  }

  /** timer_interrupt() after its loop, with the thread_yield() on return from the
      interrupt when the time slice is over. */
  function EndTick(k: State): (r: State)
    requires k.sc.cur in k.sc.status
  {
    if k.sc.threadTicks + 1 >= TIME_SLICE then
      k.(sc := Schedule(Yield(k.sc)), intrOff := true)
    else
      k.(sc := k.sc.(threadTicks := k.sc.threadTicks + 1))
  }

  /** timer_interrupt() up to the end of its loop. */
  function StartTick(k: State): (r: State)
    requires k.sc.cur in k.sc.status
    ensures r.sc.cur in r.sc.status
  {
    var now := k.clock.ticks + 1;
    var (sc, pc, xs) := WakeDue(k.sc, k.pc, k.clock.sleepers, now);
    k.(sc := sc, pc := pc, clock := k.clock.(ticks := now, sleepers := xs))
  }

  function Apply(k: State, step: Step): (r: State)
    requires Enabled(k, step) && k.sc.cur in k.sc.status && k.sc.cur in k.pc
  {
    var t := k.sc.cur;
    match step
    case Tick => EndTick(StartTick(k))
    case Resume =>
      if k.pc[t].Woken? && k.pc[t].s in k.semas then DownSema(k, k.pc[t].s, k.pc[t].cont) else k.(intrOff := false)
    case Next => Continue(k, k.pc[t])
    case IdleBlock => k.(sc := Schedule(Block(k.sc)), intrOff := true)
    case YieldStep => k.(sc := Schedule(Yield(k.sc)), intrOff := true)
    case CreateStep(u) => k.(sc := Unblock(Create(k.sc, u), u), pc := k.pc[u := Free])
    case ExitStep => k.(sc := Schedule(Exit(k.sc)), intrOff := true)
    case SleepStep(n) => Goto(k, SleepCall(WakeTick(k.clock, n)))
    case DownStep(n) => DownSema(k, Plain(n), Return)
    case TryDownStep(n) =>
      if k.semas[Plain(n)].value > 0 then k.(semas := k.semas[Plain(n) := Taken(k.semas[Plain(n)])]) else k
    case UpStep(n) => UpSema(k, Plain(n))
    case AcquireStep(l) => DownSema(k, OfLock(l), TakeLock(l, None))
    case TryAcquireStep(l) => if k.semas[OfLock(l)].value > 0 then DownSema(k, OfLock(l), TakeLock(l, None)) else k
    case ReleaseStep(l) => Goto(k, Release(l, None)).(locks := k.locks[l := k.locks[l].(holder := None)])
    case WaitStep(c) =>
      Goto(k, CondRelease(c)).(semas := k.semas[OfWaiter(t) := NewSema(0)], conds := k.conds[c := k.conds[c] + [t]],
                               stage := k.stage[t := Listed(c)])
    case SignalStep(c) => if k.conds[c] == [] then k else Pick(k, c, false)
    case BroadcastStep(c) => Goto(k, Broadcast(c))
  }

  // ---------------------------------------------------------------------
  // What every step keeps
  // ---------------------------------------------------------------------

  /** The semaphore that a thread t waits for and what it does then fit together. */
  predicate ContOk(s: SemaId, cont: Cont, t: nat, semas: set<SemaId>, locks: set<nat>, conds: set<CondId>) {
    match s
    case Plain(_) => cont == Return
    case OfLock(l) => cont.TakeLock? && cont.l == l && l in locks && CondOk(cont.cond, l, t, semas, conds)
    case OfWaiter(u) =>
      u == t && cont.Reacquire? && cont.c.lock in locks && OfLock(cont.c.lock) in semas && cont.c in conds
  }

  predicate CondOk(c: Option<CondId>, l: nat, t: nat, semas: set<SemaId>, conds: set<CondId>) {
    c.Some? ==> c.value.lock == l && c.value in conds && OfWaiter(t) in semas
  }

  /** Where a thread stands makes sense. */
  predicate PcOk(p: Pc, t: nat, semas: set<SemaId>, locks: set<nat>, conds: set<CondId>) {
    match p
    case Down(s, cont) => s in semas && ContOk(s, cont, t, semas, locks, conds)
    case Waiting(s, cont) => s in semas && ContOk(s, cont, t, semas, locks, conds)
    case Woken(s, cont) => s in semas && ContOk(s, cont, t, semas, locks, conds)
    case SetHolder(l, c) => l in locks && CondOk(c, l, t, semas, conds)
    case Release(l, c) => l in locks && OfLock(l) in semas && CondOk(c, l, t, semas, conds)
    case CondRelease(c) => c.lock in locks && OfLock(c.lock) in semas && CondOk(Some(c), c.lock, t, semas, conds)
    case SignalUp(c, w, _) => c.lock in locks && c in conds && OfWaiter(w) in semas
    case Broadcast(c) => c.lock in locks && c in conds
    case _ => true
  }

  ghost predicate PcsOk(pc: map<nat, Pc>, semas: set<SemaId>, locks: set<nat>, conds: set<CondId>) {
    forall t {:trigger PcOk(pc[t], t, semas, locks, conds)} :: t in pc ==> PcOk(pc[t], t, semas, locks, conds)
  }

  /** The invariant, of the parts of a state. */
  ghost predicate InvOf(sc: Sched, pc: map<nat, Pc>, clock: Clock, semas: map<SemaId, Sema>, locks: map<nat, Lock>,
                        conds: map<CondId, seq<nat>>, stage: map<nat, Stage>, intrOff: bool) {
    && SchedInv(sc, pc) && AlarmInv(clock, pc) && SemaInv(semas, pc) && LockInv(semas, locks, pc)
    && CondInv(semas, conds, stage, pc) && PcsOk(pc, semas.Keys, locks.Keys, conds.Keys)
    && (!intrOff ==> !pc[sc.cur].Woken?)
  }

  ghost predicate Inv(k: State) {
    InvOf(k.sc, k.pc, k.clock, k.semas, k.locks, k.conds, k.stage, k.intrOff)
  }
}
