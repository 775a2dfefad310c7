/** What the calls of src/threads/synch.c have done by the time they return, whatever the
    other threads and the timer do in between. */
module KernelCalls {
  import opened Options
  import opened DistinctLists
  import opened Threads
  import opened Scheduling
  import opened Semaphores
  import opened Locks
  import opened Kernel
  import opened KernelSafety
  import opened KernelTheorems

  // ---------------------------------------------------------------------
  // Who moves a thread
  // ---------------------------------------------------------------------

  /** A thread that stood at p stands at q without having run: it may have been woken. */
  predicate Unmoved(p: Pc, q: Pc) {
    q == p || (p.Waiting? && q == Woken(p.s, p.cont))
  }

  lemma UpUnmoved(k: State, s: SemaId, t: nat)
    requires s in k.semas && SchedInv(k.sc, k.pc) && SemaInv(k.semas, k.pc) && t in k.pc
    ensures t in UpSema(k, s).pc && Unmoved(k.pc[t], UpSema(k, s).pc[t])
  {
    if k.semas[s].waiters != [] {
      FirstWaiter(k, s);
    }
  }

  lemma ContinueUnmoved(k: State, p: Pc, t: nat)
    requires k.sc.cur in k.sc.status && CanGoOn(k, p)
    requires SchedInv(k.sc, k.pc) && SemaInv(k.semas, k.pc) && t in k.pc && t != k.sc.cur
    ensures t in Continue(k, p).pc && Unmoved(k.pc[t], Continue(k, p).pc[t])
  {
    match p
    case Release(l, c) => UpUnmoved(k, OfLock(l), t);
    case SignalUp(c, w, more) => UpUnmoved(k, OfWaiter(w), t);
    case _ => OwnStep(k, p, t);
  }

  /** What a step does to a thread that is inside a function. */
  ghost predicate Turn(k: State, step: Step, t: nat, r: State)
    requires t in k.pc && k.sc.cur in k.sc.status
  {
    if t == k.sc.cur && step.Next? then
      CanGoOn(k, k.pc[t]) && r == Continue(k, k.pc[t])
    else if t == k.sc.cur && step.Resume? && k.pc[t].Woken? && k.pc[t].s in k.semas then
      r == DownSema(k, k.pc[t].s, k.pc[t].cont)
    else
      t in r.pc && Unmoved(k.pc[t], r.pc[t])
  }

  lemma OwnTurn(k: State, step: Step)
    requires SchedInv(k.sc, k.pc) && SemaInv(k.semas, k.pc)
    requires Enabled(k, step) && !step.Tick? && k.pc[k.sc.cur] != Free
    ensures Turn(k, step, k.sc.cur, Apply(k, step))
  {
    if step.UpStep? {
      UpUnmoved(k, Plain(step.n), k.sc.cur);
    }
  }

  lemma OthersTurn(k: State, step: Step, t: nat)
    requires SchedInv(k.sc, k.pc) && SemaInv(k.semas, k.pc)
    requires Enabled(k, step) && !step.Tick? && t in k.pc && t != k.sc.cur
    ensures t in Apply(k, step).pc && Unmoved(k.pc[t], Apply(k, step).pc[t])
  {
    match step
    case UpStep(n) => UpUnmoved(k, Plain(n), t);
    case Next => ContinueUnmoved(k, k.pc[k.sc.cur], t);
    case _ =>
  }

  lemma TurnOf(k: State, step: Step, t: nat)
    requires Inv(k) && Enabled(k, step) && t in k.pc && k.pc[t] != Free && !k.pc[t].Asleep?
    ensures k.sc.cur in k.sc.status && k.sc.cur in k.pc && Turn(k, step, t, Apply(k, step))
  {
    if step.Tick? {
      TickSpares(k, t);
    } else if t == k.sc.cur {
      OwnTurn(k, step);
    } else {
      OthersTurn(k, step, t);
    }
  }

  // ---------------------------------------------------------------------
  // Semaphores and locks
  // ---------------------------------------------------------------------

  /** A unit of s was taken between k and r. */
  predicate Downed(k: State, r: State, s: SemaId) {
    && s in k.semas && s in r.semas && k.semas[s].value > 0
    && r.semas[s].value == k.semas[s].value - 1 && r.semas[s].downs == k.semas[s].downs + 1
  }

  /** Thread t holds lock l, whose semaphore is down. */
  predicate Owns(k: State, l: nat, t: nat) {
    && l in k.locks && k.locks[l] == Lock(Some(t), Some(t))
    && OfLock(l) in k.semas && k.semas[OfLock(l)].value == 0
  }

  /** Nobody is inside lock l, whose semaphore is up. */
  predicate Open(k: State, l: nat) {
    && l in k.locks && k.locks[l] == Lock(None, None)
    && OfLock(l) in k.semas && k.semas[OfLock(l)].value == 1
  }

  predicate InDown(p: Pc, s: SemaId, cont: Cont) {
    p == Waiting(s, cont) || p == Woken(s, cont)
  }

  lemma DownCall(k: State, step: Step, t: nat, n: nat, r: State)
    requires t in k.pc && k.sc.cur in k.sc.status && SemaInv(k.semas, k.pc)
    requires Turn(k, step, t, r) && InDown(k.pc[t], Plain(n), Return)
    ensures t in r.pc && (InDown(r.pc[t], Plain(n), Return) || (r.pc[t] == Free && Downed(k, r, Plain(n))))
  {
  }

  predicate InAcquire(p: Pc, l: nat) {
    InDown(p, OfLock(l), TakeLock(l, None)) || p == SetHolder(l, None)
  }

  lemma AcquireCall(k: State, step: Step, t: nat, l: nat, r: State)
    requires t in k.pc && k.sc.cur in k.sc.status && SemaInv(k.semas, k.pc)
    requires Turn(k, step, t, r) && InDown(k.pc[t], OfLock(l), TakeLock(l, None))
    ensures t in r.pc && InAcquire(r.pc[t], l)
  {
  }

  lemma SetHolderCall(k: State, step: Step, t: nat, l: nat, r: State)
    requires t in k.pc && k.sc.cur in k.sc.status && LockInv(k.semas, k.locks, k.pc)
    requires Turn(k, step, t, r) && k.pc[t] == SetHolder(l, None)
    ensures t in r.pc && (r.pc[t] == SetHolder(l, None) || (r.pc[t] == Free && Owns(r, l, t)))
  {
    assert Transit(k.pc[t]) == Some(l);
    assert LockOk(k.semas, l, k.locks[l]);
  }

  lemma ReleaseCall(k: State, step: Step, t: nat, l: nat, r: State)
    requires t in k.pc && k.sc.cur in k.sc.status && LockInv(k.semas, k.locks, k.pc)
    requires Turn(k, step, t, r) && k.pc[t] == Release(l, None)
    ensures t in r.pc && (r.pc[t] == Release(l, None) || (r.pc[t] == Free && Open(r, l)))
  {
    assert Transit(k.pc[t]) == Some(l);
    assert LockOk(k.semas, l, k.locks[l]);
  }

  // ---------------------------------------------------------------------
  // cond_wait()
  // ---------------------------------------------------------------------

  /** Thread t is in cond_wait (c), and once it has released the lock it is not inside it
      until it has it again. */
  ghost predicate InCondWait(k: State, t: nat, c: CondId) {
    && t in k.pc && PhaseOf(k.pc[t], t).InWait? && PhaseOf(k.pc[t], t).c == c
    && (InSema(k.pc[t]) ==> Outside(k, c.lock, t))
  }

  predicate InSema(p: Pc) {
    p.Down? || p.Waiting? || p.Woken?
  }

  predicate Outside(k: State, l: nat, t: nat) {
    l in k.locks && k.locks[l].inside != Some(t)
  }

  lemma ContinueInside(k: State, p: Pc, l: nat, t: nat)
    requires k.sc.cur in k.sc.status && CanGoOn(k, p) && t != k.sc.cur && Outside(k, l, t)
    ensures Outside(Continue(k, p), l, t)
  {
  }

  /** The step runs thread t. */
  predicate Runs(k: State, step: Step, t: nat) {
    t == k.sc.cur && t in k.pc && (step.Next? || (step.Resume? && k.pc[t].Woken? && k.pc[t].s in k.semas))
  }

  /** Only a thread itself gets inside a lock. */
  lemma StaysOutside(k: State, step: Step, l: nat, t: nat)
    requires Enabled(k, step) && k.sc.cur in k.sc.status && k.sc.cur in k.pc
    requires t in k.pc && k.pc[t] != Free && !Runs(k, step, t) && Outside(k, l, t)
    ensures Outside(Apply(k, step), l, t)
  {
    if step.Next? {
      ContinueInside(k, k.pc[k.sc.cur], l, t);
    }
  }

  /** cond_wait() has returned to t: it holds the lock, after exactly one signal. */
  predicate WaitDone(k: State, t: nat, c: CondId) {
    && Owns(k, c.lock, t) && t !in k.stage
    && OfWaiter(t) in k.semas && k.semas[OfWaiter(t)].ups == 1 && k.semas[OfWaiter(t)].downs == 1
  }

  lemma WaitReturns(k: State, c: CondId, r: State)
    requires k.sc.cur in k.sc.status && k.sc.cur in k.pc && k.pc[k.sc.cur] == SetHolder(c.lock, Some(c))
    requires LockInv(k.semas, k.locks, k.pc) && CondInv(k.semas, k.conds, k.stage, k.pc)
    requires CanGoOn(k, k.pc[k.sc.cur]) && r == Continue(k, k.pc[k.sc.cur])
    ensures k.sc.cur in r.pc && r.pc[k.sc.cur] == Free && WaitDone(r, k.sc.cur, c)
  {
    var t := k.sc.cur;
    assert Transit(k.pc[t]) == Some(c.lock);
    assert LockOk(k.semas, c.lock, k.locks[c.lock]);
    assert PhaseOf(k.pc[t], t) == InWait(c, true);
    assert StageOk(k.stage[t], k.semas, k.pc, t);
  }

  lemma WaitReleases(k: State, c: CondId, r: State)
    requires k.sc.cur in k.sc.status && k.sc.cur in k.pc && k.pc[k.sc.cur] == Release(c.lock, Some(c))
    requires CanGoOn(k, k.pc[k.sc.cur]) && r == Continue(k, k.pc[k.sc.cur])
    ensures InCondWait(r, k.sc.cur, c)
  {
  }

  lemma WaitDowns(k: State, s: SemaId, cont: Cont, c: CondId, r: State)
    requires k.sc.cur in k.sc.status && k.sc.cur in k.pc && InCondWait(k, k.sc.cur, c) && s in k.semas
    requires k.pc[k.sc.cur] == Down(s, cont) || k.pc[k.sc.cur] == Woken(s, cont)
    requires r == DownSema(k, s, cont)
    ensures InCondWait(r, k.sc.cur, c)
  {
  }

  lemma WaitNext(k: State, c: CondId, r: State)
    requires k.sc.cur in k.sc.status && InCondWait(k, k.sc.cur, c)
    requires LockInv(k.semas, k.locks, k.pc) && CondInv(k.semas, k.conds, k.stage, k.pc)
    requires CanGoOn(k, k.pc[k.sc.cur]) && r == Continue(k, k.pc[k.sc.cur])
    ensures k.sc.cur in r.pc
    ensures InCondWait(r, k.sc.cur, c) || (r.pc[k.sc.cur] == Free && WaitDone(r, k.sc.cur, c))
  {
    match k.pc[k.sc.cur]
    case SetHolder(l, _) => WaitReturns(k, c, r);
    case Release(l, _) => WaitReleases(k, c, r);
    case Down(s, cont) => WaitDowns(k, s, cont, c, r);
    case CondRelease(_) =>
  }

  lemma WaitCall(k: State, step: Step, t: nat, c: CondId, r: State)
    requires k.sc.cur in k.sc.status && InCondWait(k, t, c) && Turn(k, step, t, r)
    requires LockInv(k.semas, k.locks, k.pc) && CondInv(k.semas, k.conds, k.stage, k.pc)
    requires !Runs(k, step, t) && Outside(k, c.lock, t) ==> Outside(r, c.lock, t)
    ensures t in r.pc && (InCondWait(r, t, c) || (r.pc[t] == Free && WaitDone(r, t, c)))
  {
    if t == k.sc.cur && step.Next? {
      WaitNext(k, c, r);
    } else if Runs(k, step, t) {
      WaitDowns(k, k.pc[t].s, k.pc[t].cont, c, r);
    }
  }

  // ---------------------------------------------------------------------
  // cond_signal() and cond_broadcast()
  // ---------------------------------------------------------------------

  /** Thread t is inside a call that relies on holding the lock of c. */
  ghost predicate UsesList(k: State, t: nat, c: CondId) {
    t in k.pc && Holds(k.pc[t]) == Some(c.lock) && c in k.conds
  }

  lemma ContinueConds(k: State, p: Pc, c: CondId)
    requires k.sc.cur in k.sc.status && CanGoOn(k, p) && c in k.conds && !(p.Broadcast? && p.c == c)
    ensures c in Continue(k, p).conds && Continue(k, p).conds[c] == k.conds[c]
  {
  }

  /** While a thread holds the lock and is at work on the list, no other thread changes it. */
  lemma ListKept(k: State, step: Step, t: nat, c: CondId)
    requires LockInv(k.semas, k.locks, k.pc) && Enabled(k, step) && k.sc.cur in k.sc.status && k.sc.cur in k.pc
    requires UsesList(k, t, c) && !(step.Next? && t == k.sc.cur)
    ensures c in Apply(k, step).conds && Apply(k, step).conds[c] == k.conds[c]
  {
    assert k.locks[c.lock] == Lock(Some(t), Some(t));
    if step.Next? {
      assert Holds(k.pc[k.sc.cur]) != Some(c.lock);
      ContinueConds(k, k.pc[k.sc.cur], c);
    }
  }

  /** The semaphore of w was upped by a signal of c, and w is still in cond_wait(). */
  predicate GotSignal(k: State, w: nat, c: CondId) {
    w in k.stage && (k.stage[w] == Posted(c) || k.stage[w] == Got(c))
  }

  lemma ListedThread(k: State, c: CondId)
    requires ListsOk(k.conds, k.stage) && c in k.conds && k.conds[c] != []
    ensures var w := k.conds[c][0]; w in k.stage && k.stage[w] == Listed(c)
  {
    ListExact(k.conds[c], ListSet(k.stage, c), 0);
  }

  lemma DownSignal(k: State, s: SemaId, cont: Cont, c: CondId, w: nat)
    requires StagesOk(k.semas, k.stage, k.pc) && PcsOk(k.pc, k.semas.Keys, k.locks.Keys, k.conds.Keys)
    requires s in k.semas && k.sc.cur in k.sc.status && k.sc.cur in k.pc && GotSignal(k, w, c)
    requires k.pc[k.sc.cur] == Down(s, cont) || k.pc[k.sc.cur] == Woken(s, cont)
    ensures GotSignal(DownSema(k, s, cont), w, c)
  {
    assert StageOk(k.stage[w], k.semas, k.pc, w);
    assert PcOk(k.pc[k.sc.cur], k.sc.cur, k.semas.Keys, k.locks.Keys, k.conds.Keys);
  }

  ghost predicate CondParts(k: State) {
    && LockInv(k.semas, k.locks, k.pc) && CondInv(k.semas, k.conds, k.stage, k.pc)
    && PcsOk(k.pc, k.semas.Keys, k.locks.Keys, k.conds.Keys) && k.sc.cur in k.sc.status && k.sc.cur in k.pc
  }

  /** A thread that got its signal cannot return from cond_wait() while another thread
      holds the lock. */
  lemma HolderShutsOut(k: State, t: nat, c: CondId, w: nat, l: nat, d: Option<CondId>)
    requires CondParts(k) && UsesList(k, t, c) && GotSignal(k, w, c) && k.pc[k.sc.cur] == SetHolder(l, d) && d.Some?
    ensures w != k.sc.cur
  {
    assert StageOk(k.stage[w], k.semas, k.pc, w);
    assert PcOk(k.pc[k.sc.cur], k.sc.cur, k.semas.Keys, k.locks.Keys, k.conds.Keys);
    assert Transit(k.pc[k.sc.cur]) == Some(l);
    assert Holds(k.pc[t]) == Some(c.lock);
  }

  lemma ContinueSignal(k: State, t: nat, c: CondId, w: nat)
    requires CondParts(k) && CanGoOn(k, k.pc[k.sc.cur]) && UsesList(k, t, c) && GotSignal(k, w, c)
    ensures GotSignal(Continue(k, k.pc[k.sc.cur]), w, c)
  {
    match k.pc[k.sc.cur]
    case Down(s, cont) => DownSignal(k, s, cont, c, w);
    case SetHolder(l, d) => if d.Some? { HolderShutsOut(k, t, c, w, l, d); }
    case Broadcast(d) => if k.conds[d] != [] { ListedThread(k, d); }
    case _ =>
  }

  lemma SignalKept(k: State, step: Step, t: nat, c: CondId, w: nat)
    requires CondParts(k) && Enabled(k, step) && UsesList(k, t, c) && GotSignal(k, w, c)
    ensures GotSignal(Apply(k, step), w, c)
  {
    match step
    case Next => ContinueSignal(k, t, c, w);
    case Resume =>
      if k.pc[k.sc.cur].Woken? && k.pc[k.sc.cur].s in k.semas {
        DownSignal(k, k.pc[k.sc.cur].s, k.pc[k.sc.cur].cont, c, w);
      }
    case WaitStep(_) => assert StageOk(k.stage[w], k.semas, k.pc, w);
    case SignalStep(d) => if k.conds[d] != [] { ListedThread(k, d); }
    case _ =>
  }

  /** The first n threads of xs got their signal. */
  ghost predicate AllGot(k: State, xs: seq<nat>, n: nat, c: CondId) {
    n <= |xs| && forall i :: 0 <= i < n ==> GotSignal(k, xs[i], c)
  }

  lemma AllKept(k: State, step: Step, t: nat, c: CondId, xs: seq<nat>, n: nat)
    requires CondParts(k) && Enabled(k, step) && UsesList(k, t, c) && AllGot(k, xs, n, c)
    ensures AllGot(Apply(k, step), xs, n, c)
  {
    forall i | 0 <= i < n ensures GotSignal(Apply(k, step), xs[i], c) {
      SignalKept(k, step, t, c, xs[i]);
    }
  }

  /** Thread t is in a cond_signal (c) that found the list xs. */
  ghost predicate Signalling(xs: seq<nat>, k: State, t: nat, c: CondId) {
    t in k.pc && xs != [] && k.pc[t] == SignalUp(c, xs[0], false) && c in k.conds && k.conds[c] == xs[1..]
  }

  /** It signalled the first thread and left the others on the list. */
  ghost predicate SignalDone(xs: seq<nat>, k: State, c: CondId) {
    c in k.conds && if xs == [] then k.conds[c] == [] else k.conds[c] == xs[1..] && GotSignal(k, xs[0], c)
  }

  lemma SignalCall(k: State, step: Step, t: nat, c: CondId, xs: seq<nat>, r: State)
    requires k.sc.cur in k.sc.status && Signalling(xs, k, t, c) && Turn(k, step, t, r)
    requires !(step.Next? && t == k.sc.cur) ==> c in r.conds && r.conds[c] == k.conds[c]
    ensures t in r.pc && (Signalling(xs, r, t, c) || (r.pc[t] == Free && SignalDone(xs, r, c)))
  {
  }

  /** Thread t is in a cond_broadcast (c) that found the list xs: the threads before the n-th
      got their signal, except one that t is about to signal, and the others are listed. */
  ghost predicate Broadcasting(xs: seq<nat>, k: State, t: nat, c: CondId) {
    && t in k.pc && c in k.conds && |k.conds[c]| <= |xs|
    && var n := |xs| - |k.conds[c]|;
    && k.conds[c] == xs[n..]
    && ((k.pc[t] == Broadcast(c) && AllGot(k, xs, n, c))
        || (n > 0 && k.pc[t] == SignalUp(c, xs[n - 1], true) && AllGot(k, xs, n - 1, c)))
  }

  /** It signalled every thread and left none on the list. */
  ghost predicate BroadcastDone(xs: seq<nat>, k: State, c: CondId) {
    c in k.conds && k.conds[c] == [] && AllGot(k, xs, |xs|, c)
  }

  /** The loop test of cond_broadcast(). */
  lemma BroadcastTest(k: State, c: CondId, xs: seq<nat>, r: State)
    requires k.sc.cur in k.sc.status && Broadcasting(xs, k, k.sc.cur, c) && k.pc[k.sc.cur] == Broadcast(c)
    requires CanGoOn(k, Broadcast(c)) && r == Continue(k, Broadcast(c)) && AllGot(r, xs, |xs| - |k.conds[c]|, c)
    ensures k.sc.cur in r.pc
    ensures Broadcasting(xs, r, k.sc.cur, c) || (r.pc[k.sc.cur] == Free && BroadcastDone(xs, r, c))
  {
    var n := |xs| - |k.conds[c]|;
    if k.conds[c] != [] {
      assert k.conds[c][1..] == xs[n + 1..];
    }
  }

  /** The cond_signal() of its loop. */
  lemma BroadcastUp(k: State, c: CondId, w: nat, xs: seq<nat>, r: State)
    requires k.sc.cur in k.sc.status && Broadcasting(xs, k, k.sc.cur, c) && k.pc[k.sc.cur] == SignalUp(c, w, true)
    requires CanGoOn(k, SignalUp(c, w, true)) && r == Continue(k, SignalUp(c, w, true))
    requires AllGot(r, xs, |xs| - |k.conds[c]| - 1, c)
    ensures Broadcasting(xs, r, k.sc.cur, c)
  {
    assert GotSignal(r, w, c);
  }

  lemma BroadcastCall(k: State, step: Step, t: nat, c: CondId, xs: seq<nat>, r: State)
    requires k.sc.cur in k.sc.status && Broadcasting(xs, k, t, c) && Turn(k, step, t, r)
    requires !(step.Next? && t == k.sc.cur) ==> c in r.conds && r.conds[c] == k.conds[c]
    requires
      var n := |xs| - |k.conds[c]|;
      if k.pc[t].Broadcast? then AllGot(r, xs, n, c) else n > 0 && AllGot(r, xs, n - 1, c)
    ensures t in r.pc && (Broadcasting(xs, r, t, c) || (r.pc[t] == Free && BroadcastDone(xs, r, c)))
  {
    if t == k.sc.cur && step.Next? {
      if k.pc[t].SignalUp? {
        BroadcastUp(k, c, k.pc[t].w, xs, r);
      } else {
        BroadcastTest(k, c, xs, r);
      }
    }
  }

  // ---------------------------------------------------------------------
  // Every run
  // ---------------------------------------------------------------------

  predicate IsCall(step: Step) {
    || step.DownStep? || step.AcquireStep? || step.TryAcquireStep? || step.ReleaseStep? || step.WaitStep?
    || step.SignalStep? || step.BroadcastStep?
  }

  /** The list that a signal or broadcast finds. */
  function ListFor(k: State, call: Step): (xs: seq<nat>) {
    if (call.SignalStep? || call.BroadcastStep?) && call.c in k.conds then k.conds[call.c] else []
  }

  /** In state k, thread t has not returned from the call, which found the list xs. */
  ghost predicate InCall(xs: seq<nat>, k: State, t: nat, call: Step) {
    && t in k.pc
    && match call
       case DownStep(n) => InDown(k.pc[t], Plain(n), Return)
       case AcquireStep(l) => InAcquire(k.pc[t], l)
       case TryAcquireStep(l) => k.pc[t] == SetHolder(l, None)
       case ReleaseStep(l) => k.pc[t] == Release(l, None)
       case WaitStep(c) => InCondWait(k, t, c)
       case SignalStep(c) => Signalling(xs, k, t, c)
       case BroadcastStep(c) => Broadcasting(xs, k, t, c)
       case _ => false
  }

  /** What the call promises when the step from k to r returns from it. */
  ghost predicate Done(xs: seq<nat>, k: State, r: State, t: nat, call: Step) {
    match call
    case DownStep(n) => Downed(k, r, Plain(n))
    case AcquireStep(l) => Owns(r, l, t)
    case TryAcquireStep(l) => Owns(r, l, t) || (r == k && OfLock(l) in k.semas && k.semas[OfLock(l)].value == 0)
    case ReleaseStep(l) => Open(r, l)
    case WaitStep(c) => WaitDone(r, t, c)
    case SignalStep(c) => SignalDone(xs, r, c)
    case BroadcastStep(c) => BroadcastDone(xs, r, c)
    case _ => true
  }

  /** In state r, thread t is still in the call, or has returned with its promise kept. */
  ghost predicate CallGoes(xs: seq<nat>, k: State, r: State, t: nat, call: Step) {
    InCall(xs, r, t, call) || (t in r.pc && r.pc[t] == Free && Done(xs, k, r, t, call))
  }

  lemma LockCallGoes(xs: seq<nat>, k: State, step: Step, t: nat, call: Step, r: State)
    requires k.sc.cur in k.sc.status && InCall(xs, k, t, call) && Turn(k, step, t, r)
    requires SemaInv(k.semas, k.pc) && LockInv(k.semas, k.locks, k.pc)
    requires call.DownStep? || call.AcquireStep? || call.TryAcquireStep? || call.ReleaseStep?
    ensures CallGoes(xs, k, r, t, call)
  {
    match call
    case DownStep(n) => DownCall(k, step, t, n, r);
    case AcquireStep(l) => if k.pc[t].SetHolder? {
      SetHolderCall(k, step, t, l, r);
    } else {
      AcquireCall(k, step, t, l, r);
    }
    case TryAcquireStep(l) => SetHolderCall(k, step, t, l, r);
    case ReleaseStep(l) => ReleaseCall(k, step, t, l, r);
  }

  lemma WaitCallGoes(xs: seq<nat>, k: State, step: Step, t: nat, c: CondId)
    requires CondParts(k) && Enabled(k, step) && InCondWait(k, t, c) && Turn(k, step, t, Apply(k, step))
    ensures CallGoes(xs, k, Apply(k, step), t, WaitStep(c))
  {
    if !Runs(k, step, t) && Outside(k, c.lock, t) {
      StaysOutside(k, step, c.lock, t);
    }
    WaitCall(k, step, t, c, Apply(k, step));
  }

  lemma SignalCallGoes(xs: seq<nat>, k: State, step: Step, t: nat, c: CondId)
    requires CondParts(k) && Enabled(k, step) && Signalling(xs, k, t, c) && Turn(k, step, t, Apply(k, step))
    ensures CallGoes(xs, k, Apply(k, step), t, SignalStep(c))
  {
    if !(step.Next? && t == k.sc.cur) {
      ListKept(k, step, t, c);
    }
    SignalCall(k, step, t, c, xs, Apply(k, step));
  }

  lemma BroadcastKept(xs: seq<nat>, k: State, step: Step, t: nat, c: CondId)
    requires CondParts(k) && Enabled(k, step) && Broadcasting(xs, k, t, c)
    ensures UsesList(k, t, c)
    ensures
      var n := |xs| - |k.conds[c]|;
      var r := Apply(k, step);
      if k.pc[t].Broadcast? then AllGot(r, xs, n, c) else n > 0 && AllGot(r, xs, n - 1, c)
  {
    var n := |xs| - |k.conds[c]|;
    if k.pc[t].Broadcast? {
      AllKept(k, step, t, c, xs, n);
    } else {
      AllKept(k, step, t, c, xs, n - 1);
    }
  }

  lemma BroadcastCallGoes(xs: seq<nat>, k: State, step: Step, t: nat, c: CondId)
    requires CondParts(k) && Enabled(k, step) && Broadcasting(xs, k, t, c) && Turn(k, step, t, Apply(k, step))
    ensures CallGoes(xs, k, Apply(k, step), t, BroadcastStep(c))
  {
    BroadcastKept(xs, k, step, t, c);
    if !(step.Next? && t == k.sc.cur) {
      ListKept(k, step, t, c);
    }
    BroadcastCall(k, step, t, c, xs, Apply(k, step));
  }

  lemma CallTurns(xs: seq<nat>, k: State, step: Step, t: nat, call: Step)
    requires CondParts(k) && SemaInv(k.semas, k.pc) && Enabled(k, step) && InCall(xs, k, t, call)
    requires Turn(k, step, t, Apply(k, step))
    ensures CallGoes(xs, k, Apply(k, step), t, call)
  {
    if call.WaitStep? {
      WaitCallGoes(xs, k, step, t, call.c);
    } else if call.SignalStep? {
      SignalCallGoes(xs, k, step, t, call.c);
    } else if call.BroadcastStep? {
      BroadcastCallGoes(xs, k, step, t, call.c);
    } else {
      LockCallGoes(xs, k, step, t, call, Apply(k, step));
    }
  }

  lemma InsideCall(xs: seq<nat>, k: State, t: nat, call: Step)
    requires InCall(xs, k, t, call)
    ensures k.pc[t] != Free && !k.pc[t].Asleep?
  {
  }

  lemma CallStep(xs: seq<nat>, k: State, step: Step, t: nat, call: Step)
    requires Inv(k) && Enabled(k, step) && InCall(xs, k, t, call)
    ensures k.sc.cur in k.sc.status && k.sc.cur in k.pc && CallGoes(xs, k, Apply(k, step), t, call)
  {
    InsideCall(xs, k, t, call);
    TurnOf(k, step, t);
    CallTurns(xs, k, step, t, call);
  }

  /** Every call in progress in k is in progress in r or has returned with its promise kept. */
  ghost predicate EveryCallGoes(k: State, r: State) {
    forall xs, t, call {:trigger InCall(xs, k, t, call)} :: InCall(xs, k, t, call) ==> CallGoes(xs, k, r, t, call)
  }

  lemma CallsGoOn(k: State, step: Step)
    requires Inv(k) && Enabled(k, step)
    ensures k.sc.cur in k.sc.status && k.sc.cur in k.pc && EveryCallGoes(k, Apply(k, step))
  {
    forall xs, t, call | InCall(xs, k, t, call) ensures CallGoes(xs, k, Apply(k, step), t, call) {
      CallStep(xs, k, step, t, call);
    }
  }

  lemma LockCallStarts(k: State, call: Step, xs: seq<nat>)
    requires LockInv(k.semas, k.locks, k.pc) && Enabled(k, call) && k.sc.cur in k.sc.status && k.sc.cur in k.pc
    requires call.DownStep? || call.AcquireStep? || call.TryAcquireStep? || call.ReleaseStep?
    ensures CallGoes(xs, k, Apply(k, call), k.sc.cur, call)
  {
  }

  lemma CondCallStarts(k: State, call: Step)
    requires Enabled(k, call) && k.sc.cur in k.sc.status && k.sc.cur in k.pc
    requires call.WaitStep? || call.SignalStep? || call.BroadcastStep?
    ensures CallGoes(ListFor(k, call), k, Apply(k, call), k.sc.cur, call)
  {
  }

  lemma CallStarts(k: State, call: Step)
    requires Inv(k) && Enabled(k, call) && IsCall(call)
    ensures k.sc.cur in k.sc.status && k.sc.cur in k.pc
    ensures CallGoes(ListFor(k, call), k, Apply(k, call), k.sc.cur, call)
  {
    if call.WaitStep? || call.SignalStep? || call.BroadcastStep? {
      CondCallStarts(k, call);
    } else {
      LockCallStarts(k, call, ListFor(k, call));
    }
  }

  lemma StillIn(xs: seq<nat>, k: State, r: State, t: nat, call: Step)
    requires CallGoes(xs, k, r, t, call) && (t in r.pc ==> r.pc[t] != Free)
    ensures InCall(xs, r, t, call)
  {
  }

  lemma CallStepAt(ks: seq<State>, steps: seq<Step>, j: nat, xs: seq<nat>, t: nat, call: Step)
    requires IsRun(ks, steps) && j < |steps| && Inv(ks[j]) && InCall(xs, ks[j], t, call)
    ensures CallGoes(xs, ks[j], ks[j + 1], t, call)
  {
    assert ks[j + 1] == Apply(ks[j], steps[j]);
    CallStep(xs, ks[j], steps[j], t, call);
  }

  lemma CallStartsAt(ks: seq<State>, steps: seq<Step>, i: nat)
    requires IsRun(ks, steps) && i < |steps| && Inv(ks[i]) && IsCall(steps[i])
    ensures CallGoes(ListFor(ks[i], steps[i]), ks[i], ks[i + 1], ks[i].sc.cur, steps[i])
  {
    assert ks[i + 1] == Apply(ks[i], steps[i]);
    CallStarts(ks[i], steps[i]);
  }

  /** Thread t does not run its own code between the i-th and the j-th state. */
  ghost predicate NotBack(ks: seq<State>, i: nat, j: nat, t: nat) {
    j <= |ks| && forall m {:trigger ks[m]} :: i < m < j ==> t in ks[m].pc ==> ks[m].pc[t] != Free
  }

  /** Every step from one state to the next leaves a call in progress or done. */
  ghost predicate StepsCall(ks: seq<State>, i: nat, j: nat, xs: seq<nat>, t: nat, call: Step) {
    && j < |ks|
    && forall m {:trigger InCall(xs, ks[m], t, call)} :: i < m < j ==>
         InCall(xs, ks[m], t, call) ==> CallGoes(xs, ks[m], ks[m + 1], t, call)
  }

  lemma {:induction false} CallGoesOn(ks: seq<State>, i: nat, j: nat, xs: seq<nat>, t: nat, call: Step)
    requires i < j < |ks| && NotBack(ks, i, j, t) && StepsCall(ks, i, j, xs, t, call)
    requires CallGoes(xs, ks[i], ks[i + 1], t, call)
    ensures CallGoes(xs, ks[j - 1], ks[j], t, call)
  {
    if i < j - 1 {
      CallGoesOn(ks, i, j - 1, xs, t, call);
      StillIn(xs, ks[j - 2], ks[j - 1], t, call);
    }
  }

  lemma RunStepsCall(ks: seq<State>, steps: seq<Step>, i: nat, j: nat, xs: seq<nat>, t: nat, call: Step)
    requires IsRun(ks, steps) && Inv(ks[0]) && i < j < |ks|
    ensures StepsCall(ks, i, j, xs, t, call)
  {
    forall m | i < m < j && InCall(xs, ks[m], t, call) ensures CallGoes(xs, ks[m], ks[m + 1], t, call) {
      RunKeeps(ks, steps, m);
      CallStepAt(ks, steps, m, xs, t, call);
    }
  }

  /** Whatever happens in between, when a call first returns to its thread it has kept its
      promise: sema_down() took a unit, lock_acquire() got the lock, lock_try_acquire() got
      it or found it taken, lock_release() opened it, cond_wait() holds the lock again after
      one signal, cond_signal() signalled the first thread of the list and cond_broadcast()
      all of them. */
  lemma CallReturns(ks: seq<State>, steps: seq<Step>, i: nat, j: nat)
    requires IsRun(ks, steps) && Inv(ks[0]) && i < j < |ks| && IsCall(steps[i])
    requires NotBack(ks, i, j, ks[i].sc.cur) && ks[i].sc.cur in ks[j].pc && ks[j].pc[ks[i].sc.cur] == Free
    ensures Done(ListFor(ks[i], steps[i]), ks[j - 1], ks[j], ks[i].sc.cur, steps[i])
  {
    var xs, t, call := ListFor(ks[i], steps[i]), ks[i].sc.cur, steps[i];
    RunKeeps(ks, steps, i);
    CallStartsAt(ks, steps, i);
    RunStepsCall(ks, steps, i, j, xs, t, call);
    CallGoesOn(ks, i, j, xs, t, call);
    Back(xs, ks[j - 1], ks[j], t, call);
  }

  lemma Back(xs: seq<nat>, k: State, r: State, t: nat, call: Step)
    requires CallGoes(xs, k, r, t, call) && t in r.pc && r.pc[t] == Free
    ensures Done(xs, k, r, t, call)
  {
    if InCall(xs, r, t, call) { InsideCall(xs, r, t, call); }
  }

  /** When cond_broadcast (c) returns, no thread is left on the list, and every thread that
      was on it has had its semaphore upped exactly once. */
  lemma BroadcastWakesAll(ks: seq<State>, steps: seq<Step>, i: nat, j: nat, c: CondId, n: nat)
    requires IsRun(ks, steps) && Inv(ks[0]) && i < j < |ks| && steps[i] == BroadcastStep(c)
    requires NotBack(ks, i, j, ks[i].sc.cur) && ks[i].sc.cur in ks[j].pc && ks[j].pc[ks[i].sc.cur] == Free
    ensures c in ks[i].conds && c in ks[j].conds && ks[j].conds[c] == []
    ensures n < |ks[i].conds[c]| ==>
      var w := ks[i].conds[c][n];
      && OfWaiter(w) in ks[i].semas && ks[i].semas[OfWaiter(w)].ups == 0
      && OfWaiter(w) in ks[j].semas && ks[j].semas[OfWaiter(w)].ups == 1
  {
    CallReturns(ks, steps, i, j);
    RunKeeps(ks, steps, i);
    RunKeeps(ks, steps, j);
    if n < |ks[i].conds[c]| {
      var w := ks[i].conds[c][n];
      WaitersInside(ks[i], c, n);
      assert GotSignal(ks[j], w, c);
      SignalCounted(ks[j], w, c);
    }
  }

  lemma SignalCounted(k: State, w: nat, c: CondId)
    requires Inv(k) && GotSignal(k, w, c)
    ensures OfWaiter(w) in k.semas && k.semas[OfWaiter(w)].ups == 1
  {
    assert StageOk(k.stage[w], k.semas, k.pc, w);
  }
}
