/** Every step of the kernel keeps the invariant, so it holds in every run. */
module KernelSafety {
  import opened Options
  import opened DistinctLists
  import opened Threads
  import opened Scheduling
  import opened Alarm
  import opened Semaphores
  import opened Locks
  import opened Kernel

  // ---------------------------------------------------------------------
  // sema_up()
  // ---------------------------------------------------------------------

  /** The first waiter is blocked on the semaphore, and is not the current thread. */
  lemma FirstWaiter(k: State, s: SemaId)
    requires SchedInv(k.sc, k.pc) && SemaInv(k.semas, k.pc) && s in k.semas && k.semas[s].waiters != []
    ensures var w := k.semas[s].waiters[0];
      && w in k.pc && k.pc[w] == Waiting(s, ContOf(k.pc, w)) && w in k.sc.status && k.sc.status[w] == Blocked
      && w != k.sc.idle && w != k.sc.cur
  {
    assert SemaOk(k.semas[s], s, k.pc);
    var w := k.semas[s].waiters[0];
    assert w in WaitSet(k.pc, s);
  }

  lemma UpSched(k: State, s: SemaId)
    requires SchedInv(k.sc, k.pc) && SemaInv(k.semas, k.pc) && s in k.semas
    ensures var r := UpSema(k, s); SchedInv(r.sc, r.pc) && r.sc.cur == k.sc.cur && r.sc.idle == k.sc.idle
    ensures k.sc.cur in k.pc && UpSema(k, s).pc[k.sc.cur] == k.pc[k.sc.cur]
  {
    if k.semas[s].waiters != [] {
      FirstWaiter(k, s);
      var w := k.semas[s].waiters[0];
      UnblockKeeps(k.sc, k.pc, w, Woken(s, ContOf(k.pc, w)));
    }
  }

  lemma UpSemas(k: State, s: SemaId)
    requires SchedInv(k.sc, k.pc) && SemaInv(k.semas, k.pc) && AlarmInv(k.clock, k.pc) && s in k.semas
    ensures var r := UpSema(k, s); SemaInv(r.semas, r.pc) && AlarmInv(r.clock, r.pc)
  {
    if k.semas[s].waiters == [] {
      UpKeeps(k.semas, k.pc, s);
    } else {
      FirstWaiter(k, s);
      var w := k.semas[s].waiters[0];
      WakeKeeps(k.semas, k.pc, s);
      ClockKeeps(k.clock, k.pc, w, Woken(s, ContOf(k.pc, w)));
    }
  }

  /** The locks see no difference in a thread being woken. */
  lemma UpLocks(k: State, s: SemaId)
    requires SchedInv(k.sc, k.pc) && SemaInv(k.semas, k.pc) && s in k.semas && LockInv(k.semas, k.locks, k.pc)
    ensures LockInv(k.semas, k.locks, UpSema(k, s).pc)
  {
    if k.semas[s].waiters != [] {
      FirstWaiter(k, s);
      var w := k.semas[s].waiters[0];
      LockFrame(k.semas, k.semas, k.locks, k.pc, w, Woken(s, ContOf(k.pc, w)));
    }
  }

  /** Nor do the condition variables. */
  lemma UpConds(k: State, s: SemaId)
    requires SchedInv(k.sc, k.pc) && SemaInv(k.semas, k.pc) && s in k.semas && CondInv(k.semas, k.conds, k.stage, k.pc)
    ensures CondInv(k.semas, k.conds, k.stage, UpSema(k, s).pc)
  {
    if k.semas[s].waiters != [] {
      FirstWaiter(k, s);
      var w := k.semas[s].waiters[0];
      CondFrame(k.semas, k.semas, k.conds, k.stage, k.pc, w, Woken(s, ContOf(k.pc, w)));
    }
  }

  lemma MovePcs(pc: map<nat, Pc>, t: nat, p: Pc, semas: set<SemaId>, locks: set<nat>, conds: set<CondId>)
    requires PcsOk(pc, semas, locks, conds) && PcOk(p, t, semas, locks, conds)
    ensures PcsOk(pc[t := p], semas, locks, conds)
  {
    var pc' := pc[t := p];
    forall t' | t' in pc' ensures PcOk(pc'[t'], t', semas, locks, conds) {
      assert t' != t ==> PcOk(pc[t'], t', semas, locks, conds);
    }
  }

  lemma UpPcs(k: State, s: SemaId)
    requires SchedInv(k.sc, k.pc) && SemaInv(k.semas, k.pc)
    requires PcsOk(k.pc, k.semas.Keys, k.locks.Keys, k.conds.Keys) && s in k.semas
    ensures UpSema(k, s).semas.Keys == k.semas.Keys
    ensures PcsOk(UpSema(k, s).pc, k.semas.Keys, k.locks.Keys, k.conds.Keys)
  {
    assert UpSema(k, s).semas.Keys == k.semas.Keys;
    if k.semas[s].waiters != [] {
      FirstWaiter(k, s);
      var w := k.semas[s].waiters[0];
      assert PcOk(k.pc[w], w, k.semas.Keys, k.locks.Keys, k.conds.Keys);
      MovePcs(k.pc, w, Woken(s, ContOf(k.pc, w)), k.semas.Keys, k.locks.Keys, k.conds.Keys);
    }
  }

  /** sema_up() of a plain semaphore. */
  lemma UpPlain(k: State, n: nat)
    requires Inv(k) && Plain(n) in k.semas && !k.intrOff
    ensures Inv(UpSema(k, Plain(n)))
  {
    var s := Plain(n);
    var r := UpSema(k, s);
    UpSched(k, s);
    UpSemas(k, s);
    UpLocks(k, s);
    UpConds(k, s);
    UpPcs(k, s);
    LockValues(k.semas, r.semas, k.locks, r.pc);
    CondCounts(k.semas, r.semas, k.conds, k.stage, r.pc);
  }

  // ---------------------------------------------------------------------
  // sema_down()
  // ---------------------------------------------------------------------

  /** The current thread, standing at p, may look at the value of s now. */
  predicate AtDown(p: Pc, s: SemaId, cont: Cont) {
    || p == Down(s, cont) || p == Woken(s, cont)
    || (p == Free && (cont == Return || (cont.TakeLock? && cont.cond.None?)))
  }

  ghost predicate CanDown(k: State, s: SemaId, cont: Cont) {
    && s in k.semas && k.sc.cur in k.sc.status && k.sc.cur in k.pc && !Idle(k) && AtDown(k.pc[k.sc.cur], s, cont)
    && ContOk(s, cont, k.sc.cur, k.semas.Keys, k.locks.Keys, k.conds.Keys)
  }

  lemma DownSched(k: State, s: SemaId, cont: Cont)
    requires SchedInv(k.sc, k.pc) && CanDown(k, s, cont)
    ensures var r := DownSema(k, s, cont); SchedInv(r.sc, r.pc)
  {
    if k.semas[s].value > 0 {
      StayKeeps(k.sc, k.pc, GoOn(cont));
    } else {
      BlockKeeps(k.sc, k.pc, Waiting(s, cont));
      ScheduleKeeps(Block(k.sc), k.pc[k.sc.cur := Waiting(s, cont)]);
    }
  }

  lemma DownSemas(k: State, s: SemaId, cont: Cont)
    requires SemaInv(k.semas, k.pc) && AlarmInv(k.clock, k.pc) && CanDown(k, s, cont)
    ensures var r := DownSema(k, s, cont); SemaInv(r.semas, r.pc) && AlarmInv(r.clock, r.pc)
  {
    var t := k.sc.cur;
    if k.semas[s].value > 0 {
      TakeKeeps(k.semas, k.pc, s, t, GoOn(cont));
      ClockKeeps(k.clock, k.pc, t, GoOn(cont));
    } else {
      WaitKeeps(k.semas, k.pc, s, t, cont);
      ClockKeeps(k.clock, k.pc, t, Waiting(s, cont));
    }
  }

  lemma DownLocks(k: State, s: SemaId, cont: Cont)
    requires LockInv(k.semas, k.locks, k.pc) && CanDown(k, s, cont)
    ensures var r := DownSema(k, s, cont); LockInv(r.semas, r.locks, r.pc)
  {
    var t, x := k.sc.cur, k.semas[s];
    if x.value == 0 {
      LockFrame(k.semas, k.semas[s := Queued(x, t)], k.locks, k.pc, t, Waiting(s, cont));
    } else if s.OfLock? {
      assert LockOk(k.semas, s.l, k.locks[s.l]);
      LockChange(k.semas, k.semas[s := Taken(x)], k.locks, k.pc, s.l, Lock(None, Some(t)), t, GoOn(cont));
    } else {
      LockFrame(k.semas, k.semas[s := Taken(x)], k.locks, k.pc, t, GoOn(cont));
    }
  }

  /** A waiter's semaphore is up only when it was signalled. */
  lemma OnlyPosted(k: State, t: nat, c: CondId)
    requires SemaInv(k.semas, k.pc) && CondInv(k.semas, k.conds, k.stage, k.pc)
    requires t in k.pc && PhaseOf(k.pc[t], t) == InWait(c, false)
    ensures t in k.stage && OfWaiter(t) in k.semas && (k.semas[OfWaiter(t)].value > 0 <==> k.stage[t] == Posted(c))
    ensures StageOk(k.stage[t], k.semas, k.pc, t)
  {
    assert StageOk(k.stage[t], k.semas, k.pc, t);
    assert SemaOk(k.semas[OfWaiter(t)], OfWaiter(t), k.pc);
  }

  lemma DownConds(k: State, s: SemaId, cont: Cont)
    requires CondInv(k.semas, k.conds, k.stage, k.pc) && SemaInv(k.semas, k.pc) && CanDown(k, s, cont)
    ensures var r := DownSema(k, s, cont); CondInv(r.semas, r.conds, r.stage, r.pc)
  {
    var t, x := k.sc.cur, k.semas[s];
    if x.value == 0 {
      CondFrame(k.semas, k.semas[s := Queued(x, t)], k.conds, k.stage, k.pc, t, Waiting(s, cont));
    } else if s.OfWaiter? {
      OnlyPosted(k, t, cont.c);
      ListsKept(k.conds, k.stage, t, Got(cont.c));
      CondChange(k.semas, k.semas[s := Taken(x)], k.conds, k.conds, k.stage, t, Got(cont.c), k.pc, t, GoOn(cont));
    } else {
      CondFrame(k.semas, k.semas[s := Taken(x)], k.conds, k.stage, k.pc, t, GoOn(cont));
    }
  }

  lemma DownPcs(k: State, s: SemaId, cont: Cont)
    requires PcsOk(k.pc, k.semas.Keys, k.locks.Keys, k.conds.Keys) && CanDown(k, s, cont)
    ensures var r := DownSema(k, s, cont); PcsOk(r.pc, r.semas.Keys, r.locks.Keys, k.conds.Keys)
  {
    var r := DownSema(k, s, cont);
    assert r.semas.Keys == k.semas.Keys && r.locks.Keys == k.locks.Keys;
    MovePcs(k.pc, k.sc.cur, if k.semas[s].value > 0 then GoOn(cont) else Waiting(s, cont),
            k.semas.Keys, k.locks.Keys, k.conds.Keys);
  }

  lemma DownKeeps(k: State, s: SemaId, cont: Cont)
    requires Inv(k) && CanDown(k, s, cont)
    ensures Inv(DownSema(k, s, cont))
  {
    DownSched(k, s, cont);
    DownSemas(k, s, cont);
    DownLocks(k, s, cont);
    DownConds(k, s, cont);
    DownPcs(k, s, cont);
  }

  // ---------------------------------------------------------------------
  // Steps of the current thread that touch no semaphore
  // ---------------------------------------------------------------------

  /** The thread t, current or new, may stand at p as far as locks are concerned. */
  ghost predicate Plainly(p: Pc) {
    !OnList(p) && !p.Woken? && Transit(p).None?
  }

  /** The current thread goes on; it enters and leaves nothing. */
  lemma GotoKeeps(k: State, p: Pc)
    requires Inv(k) && !Idle(k) && !k.intrOff && Plainly(k.pc[k.sc.cur]) && Plainly(p)
    requires Holds(p).Some? ==> HeldByCurrent(k, Holds(p).value)
    requires SamePhase(k.pc, k.sc.cur, p)
    requires PcOk(p, k.sc.cur, k.semas.Keys, k.locks.Keys, k.conds.Keys)
    ensures Inv(Goto(k, p))
  {
    var t := k.sc.cur;
    StayKeeps(k.sc, k.pc, p);
    ClockKeeps(k.clock, k.pc, t, p);
    NoSemaChange(k.semas, k.pc, t, p);
    HolderIsInside(k, p);
    LockFrame(k.semas, k.semas, k.locks, k.pc, t, p);
    CondFrame(k.semas, k.semas, k.conds, k.stage, k.pc, t, p);
    MovePcs(k.pc, t, p, k.semas.Keys, k.locks.Keys, k.conds.Keys);
  }

  lemma HolderIsInside(k: State, p: Pc)
    requires LockInv(k.semas, k.locks, k.pc) && (Holds(p).Some? ==> HeldByCurrent(k, Holds(p).value))
    ensures Holds(p).Some? ==>
      Holds(p).value in k.locks && k.locks[Holds(p).value] == Lock(Some(k.sc.cur), Some(k.sc.cur))
  {
    if Holds(p).Some? {
      assert LockOk(k.semas, Holds(p).value, k.locks[Holds(p).value]);
    }
  }

  // ---------------------------------------------------------------------
  // Locks
  // ---------------------------------------------------------------------

  /** What a step of the current thread that only changes its place and one lock
      keeps, besides LockInv and CondInv. */
  lemma MoveKeeps(k: State, p: Pc)
    requires SchedInv(k.sc, k.pc) && AlarmInv(k.clock, k.pc) && SemaInv(k.semas, k.pc) && !Idle(k)
    requires !OnList(k.pc[k.sc.cur]) && !k.pc[k.sc.cur].Woken? && !OnList(p) && !p.Woken?
    ensures var pc := k.pc[k.sc.cur := p]; SchedInv(k.sc, pc) && AlarmInv(k.clock, pc) && SemaInv(k.semas, pc)
  {
    StayKeeps(k.sc, k.pc, p);
    ClockKeeps(k.clock, k.pc, k.sc.cur, p);
    NoSemaChange(k.semas, k.pc, k.sc.cur, p);
  }

  lemma NotIdle(k: State)
    requires SchedInv(k.sc, k.pc) && k.pc[k.sc.cur] != Free
    ensures !Idle(k)
  {
  }

  /** lock_acquire() sets the holder; a cond_wait() that ends here holds its lock
      after exactly one signal. */
  lemma SetHolderKeeps(k: State, l: nat, c: Option<CondId>)
    requires Inv(k) && !k.intrOff && k.pc[k.sc.cur] == SetHolder(l, c)
    ensures l in k.locks && Inv(Continue(k, SetHolder(l, c)))
    ensures Continue(k, SetHolder(l, c)).locks[l] == Lock(Some(k.sc.cur), Some(k.sc.cur))
    ensures c.Some? ==> OfWaiter(k.sc.cur) in k.semas && k.semas[OfWaiter(k.sc.cur)].ups == 1
  {
    var t := k.sc.cur;
    NotIdle(k);
    MoveKeeps(k, Free);
    assert Transit(k.pc[t]) == Some(l);
    assert LockOk(k.semas, l, k.locks[l]);
    LockChange(k.semas, k.semas, k.locks, k.pc, l, Lock(Some(t), Some(t)), t, Free);
    assert PcOk(k.pc[t], t, k.semas.Keys, k.locks.Keys, k.conds.Keys);
    if c.Some? {
      CondReturn(k.semas, k.conds, k.stage, k.pc, t, c.value);
    } else {
      CondFrame(k.semas, k.semas, k.conds, k.stage, k.pc, t, Free);
    }
    assert Continue(k, SetHolder(l, c)).locks.Keys == k.locks.Keys;
    MovePcs(k.pc, t, Free, k.semas.Keys, k.locks.Keys, k.conds.Keys);
  }

  /** lock_release() clears the holder, from the thread's own code or in cond_wait(). */
  lemma ClearHolderKeeps(k: State, l: nat, p: Pc)
    requires Inv(k) && !k.intrOff && !Idle(k) && HeldByCurrent(k, l) && p.Release? && p.l == l
    requires k.pc[k.sc.cur] == (if p.cond.Some? then CondRelease(p.cond.value) else Free)
    requires p.cond.Some? ==> p.cond.value.lock == l
    ensures Inv(Goto(k, p).(locks := k.locks[l := k.locks[l].(holder := None)]))
  {
    var t := k.sc.cur;
    MoveKeeps(k, p);
    assert LockOk(k.semas, l, k.locks[l]);
    LockChange(k.semas, k.semas, k.locks, k.pc, l, Lock(None, Some(t)), t, p);
    CondFrame(k.semas, k.semas, k.conds, k.stage, k.pc, t, p);
    assert k.locks[l := k.locks[l].(holder := None)].Keys == k.locks.Keys;
    assert PcOk(k.pc[t], t, k.semas.Keys, k.locks.Keys, k.conds.Keys);
    MovePcs(k.pc, t, p, k.semas.Keys, k.locks.Keys, k.conds.Keys);
  }

  /** lock_release() ups the semaphore: the lock is free again. */
  lemma ReleaseLocks(k: State, l: nat, p: Pc)
    requires SchedInv(k.sc, k.pc) && SemaInv(k.semas, k.pc) && LockInv(k.semas, k.locks, k.pc)
    requires k.pc[k.sc.cur].Release? && k.pc[k.sc.cur].l == l && Transit(p).None? && Holds(p).None?
    ensures l in k.locks && OfLock(l) in k.semas
    ensures var u := UpSema(k, OfLock(l)); LockInv(u.semas, k.locks[l := Lock(None, None)], u.pc[k.sc.cur := p])
  {
    var t, s := k.sc.cur, OfLock(l);
    assert Transit(k.pc[t]) == Some(l);
    assert LockOk(k.semas, l, k.locks[l]);
    UpSched(k, s);
    UpLocks(k, s);
    LockChange(k.semas, UpSema(k, s).semas, k.locks, UpSema(k, s).pc, l, Lock(None, None), t, p);
  }

  /** What sema_up() and going on keep, besides LockInv and CondInv. */
  lemma UpMoveKeeps(k: State, s: SemaId, p: Pc)
    requires SchedInv(k.sc, k.pc) && AlarmInv(k.clock, k.pc) && SemaInv(k.semas, k.pc) && !Idle(k) && s in k.semas
    requires !OnList(k.pc[k.sc.cur]) && !k.pc[k.sc.cur].Woken? && !OnList(p) && !p.Woken?
    ensures var u := UpSema(k, s); var pc := u.pc[k.sc.cur := p];
      SchedInv(u.sc, pc) && AlarmInv(u.clock, pc) && SemaInv(u.semas, pc)
  {
    UpSched(k, s);
    UpSemas(k, s);
    MoveKeeps(UpSema(k, s), p);
  }

  lemma UpMovePcs(k: State, s: SemaId, p: Pc)
    requires SchedInv(k.sc, k.pc) && SemaInv(k.semas, k.pc)
    requires PcsOk(k.pc, k.semas.Keys, k.locks.Keys, k.conds.Keys) && s in k.semas
    requires PcOk(p, k.sc.cur, k.semas.Keys, k.locks.Keys, k.conds.Keys)
    ensures var u := UpSema(k, s);
      PcsOk(u.pc[k.sc.cur := p], u.semas.Keys, k.locks.Keys, k.conds.Keys)
  {
    UpPcs(k, s);
    MovePcs(UpSema(k, s).pc, k.sc.cur, p, k.semas.Keys, k.locks.Keys, k.conds.Keys);
  }

  lemma ReleaseConds(k: State, l: nat, p: Pc)
    requires SchedInv(k.sc, k.pc) && SemaInv(k.semas, k.pc) && CondInv(k.semas, k.conds, k.stage, k.pc)
    requires OfLock(l) in k.semas && SamePhase(k.pc, k.sc.cur, p)
    ensures var u := UpSema(k, OfLock(l)); CondInv(u.semas, k.conds, k.stage, u.pc[k.sc.cur := p])
  {
    var s := OfLock(l);
    UpSched(k, s);
    UpConds(k, s);
    CondFrame(k.semas, UpSema(k, s).semas, k.conds, k.stage, UpSema(k, s).pc, k.sc.cur, p);
  }

  lemma ReleaseParts(k: State, l: nat, p: Pc)
    requires Inv(k) && k.pc[k.sc.cur].Release? && k.pc[k.sc.cur].l == l && OfLock(l) in k.semas && l in k.locks
    requires !OnList(p) && !p.Woken? && Transit(p).None? && Holds(p).None? && SamePhase(k.pc, k.sc.cur, p)
    requires PcOk(p, k.sc.cur, k.semas.Keys, k.locks.Keys, k.conds.Keys)
    ensures var u := UpSema(k, OfLock(l));
      InvOf(u.sc, u.pc[k.sc.cur := p], k.clock, u.semas, k.locks[l := Lock(None, None)], k.conds, k.stage, false)
  {
    var s := OfLock(l);
    NotIdle(k);
    ReleaseLocks(k, l, p);
    UpMoveKeeps(k, s, p);
    UpMovePcs(k, s, p);
    ReleaseConds(k, l, p);
    assert k.locks[l := Lock(None, None)].Keys == k.locks.Keys;
  }

  lemma ReleaseKeeps(k: State, l: nat, c: Option<CondId>)
    requires Inv(k) && !k.intrOff && k.pc[k.sc.cur] == Release(l, c)
    ensures l in k.locks && OfLock(l) in k.semas && Inv(Continue(k, Release(l, c)))
  {
    var t := k.sc.cur;
    assert Transit(k.pc[t]) == Some(l);
    assert PcOk(k.pc[t], t, k.semas.Keys, k.locks.Keys, k.conds.Keys);
    ReleaseParts(k, l, if c.Some? then Down(OfWaiter(t), Reacquire(c.value)) else Free);
    assert k.locks[l].(inside := None) == Lock(None, None);
  }

  // ---------------------------------------------------------------------
  // Condition variables
  // ---------------------------------------------------------------------

  /** A thread that runs its own code, or broadcasts, is in no cond_wait(). */
  lemma NoStage(k: State, t: nat)
    requires CondInv(k.semas, k.conds, k.stage, k.pc) && t in k.pc && PhaseOf(k.pc[t], t) == NoWait
    ensures t !in k.stage
  {
    assert t in k.stage ==> StageOk(k.stage[t], k.semas, k.pc, t);
  }

  /** cond_wait() begins: the thread is on the list and its semaphore is zero. */
  lemma WaitConds(k: State, c: CondId)
    requires CondInv(k.semas, k.conds, k.stage, k.pc) && k.sc.cur in k.pc && k.pc[k.sc.cur] == Free && c in k.conds
    ensures var t := k.sc.cur;
      CondInv(k.semas[OfWaiter(t) := NewSema(0)], k.conds[c := k.conds[c] + [t]], k.stage[t := Listed(c)],
              k.pc[t := CondRelease(c)])
  {
    var t := k.sc.cur;
    NoStage(k, t);
    ListsPushed(k.conds, k.stage, t, c);
    assert k.conds[c := k.conds[c] + [t]].Keys == k.conds.Keys;
    CondChange(k.semas, k.semas[OfWaiter(t) := NewSema(0)], k.conds, k.conds[c := k.conds[c] + [t]],
               k.stage, t, Listed(c), k.pc, t, CondRelease(c));
  }

  lemma WaitSemas(k: State, c: CondId)
    requires SemaInv(k.semas, k.pc) && k.sc.cur in k.pc && k.pc[k.sc.cur] == Free
    requires PcsOk(k.pc, k.semas.Keys, k.locks.Keys, k.conds.Keys)
    ensures var t := k.sc.cur; SemaInv(k.semas[OfWaiter(t) := NewSema(0)], k.pc[t := CondRelease(c)])
  {
    var t := k.sc.cur;
    forall u | u in k.pc ensures !On(k.pc[u], OfWaiter(t)) {
      assert PcOk(k.pc[u], u, k.semas.Keys, k.locks.Keys, k.conds.Keys);
    }
    InitKeeps(k.semas, k.pc, OfWaiter(t), 0);
    NoSemaChange(k.semas[OfWaiter(t) := NewSema(0)], k.pc, t, CondRelease(c));
  }

  lemma MorePcs(pc: map<nat, Pc>, semas: set<SemaId>, semas': set<SemaId>, locks: set<nat>, conds: set<CondId>)
    requires PcsOk(pc, semas, locks, conds) && semas <= semas'
    ensures PcsOk(pc, semas', locks, conds)
  {
    forall t | t in pc ensures PcOk(pc[t], t, semas', locks, conds) {
      assert PcOk(pc[t], t, semas, locks, conds);
    }
  }

  lemma WaitPcs(k: State, c: CondId)
    requires PcsOk(k.pc, k.semas.Keys, k.locks.Keys, k.conds.Keys)
    requires c.lock in k.locks && OfLock(c.lock) in k.semas && c in k.conds
    ensures var t := k.sc.cur;
      PcsOk(k.pc[t := CondRelease(c)], k.semas[OfWaiter(t) := NewSema(0)].Keys, k.locks.Keys,
            k.conds[c := k.conds[c] + [t]].Keys)
  {
    var t := k.sc.cur;
    var semas := k.semas[OfWaiter(t) := NewSema(0)];
    assert k.conds[c := k.conds[c] + [t]].Keys == k.conds.Keys;
    MorePcs(k.pc, k.semas.Keys, semas.Keys, k.locks.Keys, k.conds.Keys);
    MovePcs(k.pc, t, CondRelease(c), semas.Keys, k.locks.Keys, k.conds.Keys);
  }

  lemma WaitStepKeeps(k: State, c: CondId)
    requires Inv(k) && Enabled(k, WaitStep(c))
    ensures Inv(Apply(k, WaitStep(c)))
  {
    var t := k.sc.cur;
    assert LockOk(k.semas, c.lock, k.locks[c.lock]);
    StayKeeps(k.sc, k.pc, CondRelease(c));
    ClockKeeps(k.clock, k.pc, t, CondRelease(c));
    WaitSemas(k, c);
    WaitConds(k, c);
    WaitPcs(k, c);
    LockFrame(k.semas, k.semas[OfWaiter(t) := NewSema(0)], k.locks, k.pc, t, CondRelease(c));
  }

  /** cond_signal() takes the first thread off the list. */
  lemma PickConds(k: State, c: CondId, more: bool)
    requires CondInv(k.semas, k.conds, k.stage, k.pc) && k.sc.cur in k.pc && c in k.conds && k.conds[c] != []
    requires k.pc[k.sc.cur] == Free || k.pc[k.sc.cur] == Broadcast(c)
    ensures var t, w := k.sc.cur, k.conds[c][0];
      CondInv(k.semas, k.conds[c := k.conds[c][1..]], k.stage[w := Picked(c, t)], k.pc[t := SignalUp(c, w, more)])
      && OfWaiter(w) in k.semas
  {
    var t, w := k.sc.cur, k.conds[c][0];
    ListsPopped(k.conds, k.stage, c, Picked(c, t));
    NoStage(k, t);
    assert StageOk(k.stage[w], k.semas, k.pc, w);
    assert k.conds[c := k.conds[c][1..]].Keys == k.conds.Keys;
    CondChange(k.semas, k.semas, k.conds, k.conds[c := k.conds[c][1..]],
               k.stage, w, Picked(c, t), k.pc, t, SignalUp(c, w, more));
  }

  lemma PickKeeps(k: State, c: CondId, more: bool)
    requires Inv(k) && !k.intrOff && !Idle(k) && HeldByCurrent(k, c.lock) && c in k.conds && k.conds[c] != []
    requires k.pc[k.sc.cur] == Free || k.pc[k.sc.cur] == Broadcast(c)
    ensures Inv(Pick(k, c, more))
  {
    var t, w := k.sc.cur, k.conds[c][0];
    var p := SignalUp(c, w, more);
    MoveKeeps(k, p);
    PickConds(k, c, more);
    HolderIsInside(k, p);
    LockFrame(k.semas, k.semas, k.locks, k.pc, t, p);
    MovePcs(k.pc, t, p, k.semas.Keys, k.locks.Keys, k.conds.Keys);
    assert k.conds[c := k.conds[c][1..]].Keys == k.conds.Keys;
  }

  /** The signal reaches the thread w that was taken off the list. */
  lemma PostConds(k: State, c: CondId, w: nat, more: bool, p: Pc)
    requires SchedInv(k.sc, k.pc) && SemaInv(k.semas, k.pc) && CondInv(k.semas, k.conds, k.stage, k.pc)
    requires k.pc[k.sc.cur] == SignalUp(c, w, more) && (p == Free || p == Broadcast(c))
    ensures OfWaiter(w) in k.semas
    ensures var u := UpSema(k, OfWaiter(w)); CondInv(u.semas, k.conds, k.stage[w := Posted(c)], u.pc[k.sc.cur := p])
  {
    var t, s := k.sc.cur, OfWaiter(w);
    assert StageOk(k.stage[w], k.semas, k.pc, w);
    UpSched(k, s);
    UpConds(k, s);
    PostChange(k.semas, k.conds, k.stage, UpSema(k, s).pc, c, w, t, p);
  }

  lemma PostChange(semas: map<SemaId, Sema>, conds: map<CondId, seq<nat>>, stage: map<nat, Stage>, pc: map<nat, Pc>,
                   c: CondId, w: nat, t: nat, p: Pc)
    requires CondInv(semas, conds, stage, pc) && OfWaiter(w) in semas && (p == Free || p == Broadcast(c))
    requires t in pc && pc[t].SignalUp? && pc[t].c == c && pc[t].w == w
    ensures CondInv(semas[OfWaiter(w) := Upped(semas[OfWaiter(w)])], conds, stage[w := Posted(c)], pc[t := p])
  {
    assert StageOk(stage[w], semas, pc, w);
    ListsKept(conds, stage, w, Posted(c));
    CondChange(semas, semas[OfWaiter(w) := Upped(semas[OfWaiter(w)])], conds, conds, stage, w, Posted(c), pc, t, p);
  }

  lemma PostLocks(k: State, s: SemaId, p: Pc)
    requires SchedInv(k.sc, k.pc) && SemaInv(k.semas, k.pc) && LockInv(k.semas, k.locks, k.pc)
    requires s in k.semas && s.OfWaiter? && k.pc[k.sc.cur].SignalUp? && (p == Free || p == Broadcast(k.pc[k.sc.cur].c))
    ensures var u := UpSema(k, s); LockInv(u.semas, k.locks, u.pc[k.sc.cur := p])
  {
    assert Holds(k.pc[k.sc.cur]).Some?;
    UpSched(k, s);
    UpLocks(k, s);
    LockFrame(k.semas, UpSema(k, s).semas, k.locks, UpSema(k, s).pc, k.sc.cur, p);
  }

  lemma PostParts(k: State, c: CondId, w: nat, more: bool, p: Pc)
    requires Inv(k) && k.pc[k.sc.cur] == SignalUp(c, w, more) && (p == Free || p == Broadcast(c))
    ensures OfWaiter(w) in k.semas
    ensures var u := UpSema(k, OfWaiter(w));
      InvOf(u.sc, u.pc[k.sc.cur := p], k.clock, u.semas, k.locks, k.conds, k.stage[w := Posted(c)], false)
  {
    var t := k.sc.cur;
    NotIdle(k);
    assert PcOk(k.pc[t], t, k.semas.Keys, k.locks.Keys, k.conds.Keys);
    PostConds(k, c, w, more, p);
    PostLocks(k, OfWaiter(w), p);
    UpMoveKeeps(k, OfWaiter(w), p);
    UpMovePcs(k, OfWaiter(w), p);
  }

  lemma PostKeeps(k: State, c: CondId, w: nat, more: bool)
    requires Inv(k) && !k.intrOff && k.pc[k.sc.cur] == SignalUp(c, w, more)
    ensures OfWaiter(w) in k.semas && Inv(Continue(k, SignalUp(c, w, more)))
  {
    PostParts(k, c, w, more, if more then Broadcast(c) else Free);
  }

  // ---------------------------------------------------------------------
  // Giving up the processor
  // ---------------------------------------------------------------------

  lemma YieldStepKeeps(k: State)
    requires Inv(k)
    ensures Inv(k.(sc := Schedule(Yield(k.sc)), intrOff := true))
  {
    YieldKeeps(k.sc, k.pc);
    ScheduleKeeps(Yield(k.sc), k.pc);
  }

  lemma ExitStepKeeps(k: State)
    requires Inv(k) && !Idle(k)
    ensures Inv(k.(sc := Schedule(Exit(k.sc)), intrOff := true))
  {
    ExitKeeps(k.sc, k.pc);
    ScheduleKeeps(Exit(k.sc), k.pc);
  }

  lemma IdleBlockKeeps(k: State)
    requires Inv(k) && Idle(k)
    ensures Inv(k.(sc := Schedule(Block(k.sc)), intrOff := true))
  {
    BlockKeeps(k.sc, k.pc, Free);
    assert k.pc[k.sc.cur := Free] == k.pc;
    ScheduleKeeps(Block(k.sc), k.pc);
  }

  lemma CreateStepKeeps(k: State, t: nat)
    requires Inv(k) && t !in k.pc
    ensures Inv(k.(sc := Unblock(Create(k.sc, t), t), pc := k.pc[t := Free]))
  {
    CreateKeeps(k.sc, k.pc, t);
    ClockKeeps(k.clock, k.pc, t, Free);
    NoSemaChange(k.semas, k.pc, t, Free);
    LockFrame(k.semas, k.semas, k.locks, k.pc, t, Free);
    CondFrame(k.semas, k.semas, k.conds, k.stage, k.pc, t, Free);
    MovePcs(k.pc, t, Free, k.semas.Keys, k.locks.Keys, k.conds.Keys);
  }

  /** timer_sleep() puts the thread on the sleep list. */
  lemma SleepKeepsInv(k: State, wake: int)
    requires Inv(k) && !k.intrOff && k.pc[k.sc.cur] == SleepCall(wake)
    ensures Inv(Continue(k, SleepCall(wake)))
  {
    var t, p := k.sc.cur, Asleep(wake);
    NotIdle(k);
    BlockKeeps(k.sc, k.pc, p);
    ScheduleKeeps(Block(k.sc), k.pc[t := p]);
    SleepKeeps(k.clock, k.pc, t, wake);
    NoSemaChange(k.semas, k.pc, t, p);
    LockFrame(k.semas, k.semas, k.locks, k.pc, t, p);
    CondFrame(k.semas, k.semas, k.conds, k.stage, k.pc, t, p);
    MovePcs(k.pc, t, p, k.semas.Keys, k.locks.Keys, k.conds.Keys);
  }

  /** sema_try_down() of a plain semaphore. */
  lemma TryDownKeeps(k: State, n: nat)
    requires Inv(k) && !k.intrOff && Plain(n) in k.semas && k.semas[Plain(n)].value > 0
    ensures Inv(k.(semas := k.semas[Plain(n) := Taken(k.semas[Plain(n)])]))
  {
    var t, s := k.sc.cur, Plain(n);
    var semas := k.semas[s := Taken(k.semas[s])];
    TakeKeeps(k.semas, k.pc, s, t, k.pc[t]);
    assert k.pc[t := k.pc[t]] == k.pc && semas.Keys == k.semas.Keys;
    LockValues(k.semas, semas, k.locks, k.pc);
    CondCounts(k.semas, semas, k.conds, k.stage, k.pc);
  }

  // ---------------------------------------------------------------------
  // The timer interrupt
  // ---------------------------------------------------------------------

  /** What the loop of timer_interrupt() keeps. */
  ghost predicate WakeInv(k: State, xs: seq<Sleeper>) {
    && SchedInv(k.sc, k.pc) && SemaInv(k.semas, k.pc) && LockInv(k.semas, k.locks, k.pc)
    && CondInv(k.semas, k.conds, k.stage, k.pc) && PcsOk(k.pc, k.semas.Keys, k.locks.Keys, k.conds.Keys)
    && SleepersOf(xs, k.pc, SleepSet(k.pc))
  }

  /** One turn of it: the first sleeper becomes ready. */
  lemma WakeOne(k: State, xs: seq<Sleeper>)
    requires WakeInv(k, xs) && xs != []
    ensures var t := xs[0].t;
      t != k.sc.cur && WakeInv(k.(sc := Unblock(k.sc, t), pc := k.pc[t := Free]), xs[1..])
  {
    var t := xs[0].t;
    UnblockKeeps(k.sc, k.pc, t, Free);
    NoSemaChange(k.semas, k.pc, t, Free);
    LockFrame(k.semas, k.semas, k.locks, k.pc, t, Free);
    CondFrame(k.semas, k.semas, k.conds, k.stage, k.pc, t, Free);
    MovePcs(k.pc, t, Free, k.semas.Keys, k.locks.Keys, k.conds.Keys);
    assert SleepSet(k.pc[t := Free]) == SleepSet(k.pc) - {t};
    SleepersKept(xs[1..], k.pc, k.pc[t := Free], SleepSet(k.pc) - {t});
  }

  lemma {:induction false} WakeAll(k: State, xs: seq<Sleeper>, now: int)
    requires WakeInv(k, xs)
    ensures var (sc, pc, ys) := WakeDue(k.sc, k.pc, xs, now); WakeInv(k.(sc := sc, pc := pc), ys)
    decreases |xs|
  {
    if xs != [] && xs[0].wake <= now {
      WakeOne(k, xs);
      WakeAll(k.(sc := Unblock(k.sc, xs[0].t), pc := k.pc[xs[0].t := Free]), xs[1..], now);
    }
  }

  /** The current thread and its slice are not touched. */
  lemma {:induction false} WakeCurrent(sc: Sched, pc: map<nat, Pc>, xs: seq<Sleeper>, now: int)
    requires forall i :: 0 <= i < |xs| ==> xs[i].t != sc.cur
    requires sc.cur in pc
    ensures var (sc', pc', ys) := WakeDue(sc, pc, xs, now);
      sc'.cur == sc.cur && sc'.threadTicks == sc.threadTicks && sc.cur in pc' && pc'[sc.cur] == pc[sc.cur]
    decreases |xs|
  {
    if xs != [] && xs[0].wake <= now {
      WakeCurrent(Unblock(sc, xs[0].t), pc[xs[0].t := Free], xs[1..], now);
    }
  }

  lemma {:induction false} NotCurrent(sc: Sched, pc: map<nat, Pc>, xs: seq<Sleeper>, s: set<nat>, i: nat)
    requires SchedInv(sc, pc) && SleepersOf(xs, pc, s) && i < |xs|
    ensures xs[i].t != sc.cur
  {
    if i > 0 {
      NotCurrent(sc, pc, xs[1..], s - {xs[0].t}, i - 1);
    }
  }

  /** The loop stops behind the last sleeper that is due, and makes the due ones
      ready in the order of the list. */
  lemma {:induction false} WakeExactly(sc: Sched, pc: map<nat, Pc>, xs: seq<Sleeper>, now: int)
    ensures var (sc', pc', ys) := WakeDue(sc, pc, xs, now); var n := Due(xs, now);
      ys == xs[n..] && sc'.ready == sc.ready + Tids(xs[..n])
    decreases |xs|
  {
    if xs != [] && xs[0].wake <= now {
      WakeExactly(Unblock(sc, xs[0].t), pc[xs[0].t := Free], xs[1..], now);
      var n := Due(xs, now);
      assert [xs[0].t] + Tids(xs[1..][..n - 1]) == Tids(xs[..n]);
      assert xs[1..][n - 1..] == xs[n..];
    } else {
      assert Tids(xs[..0]) == [];
    }
  }

  lemma StartTickKeeps(k: State)
    requires Inv(k) && !k.intrOff
    ensures var r := StartTick(k); Inv(r) && r.sc.cur == k.sc.cur && r.sc.threadTicks == k.sc.threadTicks
  {
    var now := k.clock.ticks + 1;
    WakeAll(k, k.clock.sleepers, now);
    forall i | 0 <= i < |k.clock.sleepers| ensures k.clock.sleepers[i].t != k.sc.cur {
      NotCurrent(k.sc, k.pc, k.clock.sleepers, SleepSet(k.pc), i);
    }
    WakeCurrent(k.sc, k.pc, k.clock.sleepers, now);
    WakeExactly(k.sc, k.pc, k.clock.sleepers, now);
    var (sc, pc, xs) := WakeDue(k.sc, k.pc, k.clock.sleepers, now);
    SuffixKeeps(k.clock, pc, Due(k.clock.sleepers, now), now);
  }

  lemma EndTickKeeps(k: State)
    requires Inv(k)
    ensures Inv(EndTick(k))
  {
    if k.sc.threadTicks + 1 >= TIME_SLICE {
      YieldStepKeeps(k);
    }
  }

  // ---------------------------------------------------------------------
  // Every step, and every run
  // ---------------------------------------------------------------------

  lemma BroadcastKeeps(k: State, c: CondId)
    requires Inv(k) && !k.intrOff && k.pc[k.sc.cur] == Broadcast(c)
    ensures c in k.conds && Inv(Continue(k, Broadcast(c)))
  {
    var t := k.sc.cur;
    NotIdle(k);
    assert PcOk(k.pc[t], t, k.semas.Keys, k.locks.Keys, k.conds.Keys);
    assert Holds(k.pc[t]) == Some(c.lock);
    if k.conds[c] == [] {
      GotoKeeps(k, Free);
    } else {
      PickKeeps(k, c, true);
    }
  }

  /** Whatever the current thread does next inside a function; what it needs is there. */
  lemma ContinueKeeps(k: State)
    requires Inv(k) && !k.intrOff && k.pc[k.sc.cur] != Free
    ensures CanGoOn(k, k.pc[k.sc.cur]) && Inv(Continue(k, k.pc[k.sc.cur]))
  {
    var t := k.sc.cur;
    assert PcOk(k.pc[t], t, k.semas.Keys, k.locks.Keys, k.conds.Keys);
    assert !OnList(k.pc[t]);
    NotIdle(k);
    match k.pc[t]
    case Down(s, cont) => DownKeeps(k, s, cont);
    case SetHolder(l, c) => SetHolderKeeps(k, l, c);
    case Release(l, c) => ReleaseKeeps(k, l, c);
    case CondRelease(c) => CondReleaseKeeps(k, c);
    case SignalUp(c, w, more) => PostKeeps(k, c, w, more);
    case Broadcast(c) => BroadcastKeeps(k, c);
    case SleepCall(wake) => SleepKeepsInv(k, wake);
  }

  lemma CondReleaseKeeps(k: State, c: CondId)
    requires Inv(k) && !k.intrOff && k.pc[k.sc.cur] == CondRelease(c)
    ensures HeldByCurrent(k, c.lock) && Inv(Continue(k, CondRelease(c)))
  {
    NotIdle(k);
    assert Holds(k.pc[k.sc.cur]) == Some(c.lock);
    ClearHolderKeeps(k, c.lock, Release(c.lock, Some(c)));
  }

  lemma ResumeKeeps(k: State)
    requires Inv(k) && k.intrOff
    ensures k.sc.cur in k.pc && (k.pc[k.sc.cur].Woken? ==> k.pc[k.sc.cur].s in k.semas)
    ensures Inv(Apply(k, Resume))
  {
    var t := k.sc.cur;
    assert PcOk(k.pc[t], t, k.semas.Keys, k.locks.Keys, k.conds.Keys);
    if k.pc[t].Woken? {
      NotIdle(k);
      DownKeeps(k, k.pc[t].s, k.pc[t].cont);
    }
  }

  lemma SleepCallAt(k: State, wake: int)
    requires Inv(k) && Own(k)
    ensures Inv(Goto(k, SleepCall(wake)))
  {
    GotoKeeps(k, SleepCall(wake));
  }

  lemma SleepCallKeeps(k: State, n: int)
    requires Inv(k) && Own(k)
    ensures Inv(Apply(k, SleepStep(n)))
  {
    SleepCallAt(k, WakeTick(k.clock, n));
  }

  lemma SwitchCallKeeps(k: State, step: Step)
    requires Inv(k) && Own(k) && Enabled(k, step) && (step.YieldStep? || step.ExitStep?)
    ensures Inv(Apply(k, step))
  {
    match step
    case YieldStep => YieldStepKeeps(k);
    case ExitStep => ExitStepKeeps(k);
  }

  lemma CreateCallKeeps(k: State, t: nat)
    requires Inv(k) && Enabled(k, CreateStep(t))
    ensures Inv(Apply(k, CreateStep(t)))
  {
    CreateStepKeeps(k, t);
  }

  lemma LockCallKeeps(k: State, step: Step)
    requires Inv(k) && Own(k) && Enabled(k, step)
    requires step.DownStep? || step.AcquireStep? || step.TryAcquireStep? || step.ReleaseStep?
    ensures Inv(Apply(k, step))
  {
    match step
    case DownStep(n) => DownKeeps(k, Plain(n), Return);
    case AcquireStep(l) => DownKeeps(k, OfLock(l), TakeLock(l, None));
    case TryAcquireStep(l) =>
      if k.semas[OfLock(l)].value > 0 {
        DownKeeps(k, OfLock(l), TakeLock(l, None));
      }
    case ReleaseStep(l) => ClearHolderKeeps(k, l, Release(l, None));
  }

  lemma CondCallKeeps(k: State, step: Step)
    requires Inv(k) && Own(k) && Enabled(k, step) && (step.WaitStep? || step.SignalStep? || step.BroadcastStep?)
    ensures Inv(Apply(k, step))
  {
    match step
    case WaitStep(c) => WaitStepKeeps(k, c);
    case SignalStep(c) =>
      if k.conds[c] != [] {
        PickKeeps(k, c, false);
      }
    case BroadcastStep(c) => GotoKeeps(k, Broadcast(c));
  }

  /** Every step keeps the invariant. */
  lemma StepKeeps(k: State, step: Step)
    requires Inv(k) && Enabled(k, step)
    ensures k.sc.cur in k.sc.status && k.sc.cur in k.pc && Inv(Apply(k, step))
  {
    match step
    case Tick =>
      StartTickKeeps(k);
      EndTickKeeps(StartTick(k));
    case Resume => ResumeKeeps(k);
    case Next => ContinueKeeps(k);
    case IdleBlock => IdleBlockKeeps(k);
    case TryDownStep(n) =>
      if k.semas[Plain(n)].value > 0 {
        TryDownKeeps(k, n);
      }
    case UpStep(n) => UpPlain(k, n);
    case YieldStep => SwitchCallKeeps(k, step);
    case CreateStep(t) => CreateCallKeeps(k, t);
    case ExitStep => SwitchCallKeeps(k, step);
    case SleepStep(n) => SleepCallKeeps(k, n);
    case WaitStep(_) => CondCallKeeps(k, step);
    case SignalStep(_) => CondCallKeeps(k, step);
    case BroadcastStep(_) => CondCallKeeps(k, step);
    case _ => LockCallKeeps(k, step);
  }

  /** The state when thread_start() has returned for the first time: the initial
      thread runs, the idle thread is blocked, nothing is in use. */
  ghost predicate Initial(k: State) {
    && k.sc.idle != k.sc.initial
    && k.sc == Sched(map[k.sc.initial := Running, k.sc.idle := Blocked], [], k.sc.initial, k.sc.idle, k.sc.initial, 0)
    && k.pc == map[k.sc.initial := Free, k.sc.idle := Free] && !k.intrOff
    && k.clock.sleepers == [] && k.stage == map[]
    && (forall s {:trigger k.semas[s]} :: s in k.semas ==> k.semas[s] == NewSema(k.semas[s].init))
    && (forall l {:trigger k.locks[l]} :: l in k.locks ==>
          k.locks[l] == Lock(None, None) && OfLock(l) in k.semas && k.semas[OfLock(l)].init == 1)
    && (forall c {:trigger k.conds[c]} :: c in k.conds ==> k.conds[c] == [])
  }

  lemma InitialSemas(k: State)
    requires Initial(k)
    ensures SemaInv(k.semas, k.pc) && LockInv(k.semas, k.locks, k.pc)
  {
    forall s | s in k.semas ensures SemaOk(k.semas[s], s, k.pc) {
      assert WaitSet(k.pc, s) == {};
    }
    forall l | l in k.locks ensures LockOk(k.semas, l, k.locks[l]) {
      assert k.semas[OfLock(l)].value == 1;
    }
  }

  lemma InitialInv(k: State)
    requires Initial(k)
    ensures Inv(k)
  {
    assert ReadySet(k.sc.status, k.sc.idle) == {};
    assert SleepSet(k.pc) == {};
    InitialSemas(k);
    forall c | c in k.conds ensures ListOf(k.conds[c], ListSet(k.stage, c)) {
      assert ListSet(k.stage, c) == {};
    }
  }

  /** ks are the states of a run that takes the given steps. */
  ghost predicate IsRun(ks: seq<State>, steps: seq<Step>) {
    && |ks| == |steps| + 1
    && forall i {:trigger steps[i]} :: 0 <= i < |steps| ==>
         && Enabled(ks[i], steps[i]) && ks[i].sc.cur in ks[i].sc.status && ks[i].sc.cur in ks[i].pc
         && ks[i + 1] == Apply(ks[i], steps[i])
  }

  /** The invariant holds in every state of every run. */
  lemma {:induction false} RunKeeps(ks: seq<State>, steps: seq<Step>, n: nat)
    requires IsRun(ks, steps) && Inv(ks[0]) && n < |ks|
    ensures Inv(ks[n])
  {
    if n > 0 {
      RunKeeps(ks, steps, n - 1);
      assert ks[n] == Apply(ks[n - 1], steps[n - 1]);
      StepKeeps(ks[n - 1], steps[n - 1]);
    }
  }
}
