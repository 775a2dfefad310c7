/** Locks and condition variables: src/threads/synch.c, lines 170-338. */
module Locks {
  import opened Options
  import opened DistinctLists
  import opened Threads
  import opened Semaphores

  // ---------------------------------------------------------------------
  // Locks
  // ---------------------------------------------------------------------

  /** A lock's holder field, and the thread that is inside: from the end of the
      sema_down() in lock_acquire() to the sema_up() in lock_release(). */
  datatype Lock = Lock(holder: Option<nat>, inside: Option<nat>)

  /** The lock that a thread standing at p is inside of without being its holder. */
  function Transit(p: Pc): (l: Option<nat>) {
    if p.SetHolder? || p.Release? then Some(p.l) else None
  }

  /** The lock that a thread standing at p relies on holding. */
  function Holds(p: Pc): (l: Option<nat>) {
    if p.CondRelease? || p.SignalUp? || p.Broadcast? then Some(p.c.lock) else None
  }

  /** The semaphore's value and the number of threads inside make one, and a holder
      is the thread inside. */
  ghost predicate LockOk(semas: map<SemaId, Sema>, l: nat, x: Lock) {
    && OfLock(l) in semas && semas[OfLock(l)].value + (if x.inside.None? then 0 else 1) == 1
    && (x.holder.Some? ==> x.inside == x.holder)
  }

  ghost predicate LockInv(semas: map<SemaId, Sema>, locks: map<nat, Lock>, pc: map<nat, Pc>) {
    && (forall l {:trigger LockOk(semas, l, locks[l])} :: l in locks ==> LockOk(semas, l, locks[l]))
    && (forall t {:trigger Transit(pc[t])} :: t in pc && Transit(pc[t]).Some? ==>
          Transit(pc[t]).value in locks && locks[Transit(pc[t]).value] == Lock(None, Some(t)))
    && (forall t {:trigger Holds(pc[t])} :: t in pc && Holds(pc[t]).Some? ==>
          Holds(pc[t]).value in locks && locks[Holds(pc[t]).value] == Lock(Some(t), Some(t)))
    && (forall l {:trigger locks[l]} :: l in locks && locks[l].holder.None? && locks[l].inside.Some? ==>
          locks[l].inside.value in pc && Transit(pc[locks[l].inside.value]) == Some(l))
  }

  /** The semaphores of the locks keep their values. */
  ghost predicate SameLockValues(semas: map<SemaId, Sema>, semas': map<SemaId, Sema>, locks: map<nat, Lock>) {
    forall l {:trigger locks[l]} :: l in locks && OfLock(l) in semas ==>
      OfLock(l) in semas' && semas'[OfLock(l)].value == semas[OfLock(l)].value
  }

  /** A step that enters or leaves no lock; a lock that it relies on is held. */
  lemma LockFrame(semas: map<SemaId, Sema>, semas': map<SemaId, Sema>, locks: map<nat, Lock>, pc: map<nat, Pc>,
                  t: nat, p: Pc)
    requires LockInv(semas, locks, pc) && SameLockValues(semas, semas', locks)
    requires Transit(p) == if t in pc then Transit(pc[t]) else None
    requires Holds(p).Some? ==> Holds(p).value in locks && locks[Holds(p).value] == Lock(Some(t), Some(t))
    ensures LockInv(semas', locks, pc[t := p])
  {
    forall l | l in locks ensures LockOk(semas', l, locks[l]) {
      assert LockOk(semas, l, locks[l]);
    }
  }

  /** A step on a semaphore that belongs to no lock. */
  lemma LockValues(semas: map<SemaId, Sema>, semas': map<SemaId, Sema>, locks: map<nat, Lock>, pc: map<nat, Pc>)
    requires LockInv(semas, locks, pc) && SameLockValues(semas, semas', locks)
    ensures LockInv(semas', locks, pc)
  {
    forall l | l in locks ensures LockOk(semas', l, locks[l]) {
      assert LockOk(semas, l, locks[l]);
    }
  }

  /** The thread t changes one lock, which no other thread is inside of. */
  lemma LockChange(semas: map<SemaId, Sema>, semas': map<SemaId, Sema>, locks: map<nat, Lock>, pc: map<nat, Pc>,
                   l: nat, x: Lock, t: nat, p: Pc)
    requires LockInv(semas, locks, pc) && l in locks && t in pc
    requires forall l' {:trigger locks[l']} :: l' in locks && l' != l && OfLock(l') in semas ==>
      OfLock(l') in semas' && semas'[OfLock(l')].value == semas[OfLock(l')].value
    requires LockOk(semas', l, x)
    requires locks[l].inside.Some? ==> locks[l].inside.value == t
    requires x.inside.Some? ==> x.inside.value == t
    requires Transit(pc[t]).Some? ==> Transit(pc[t]).value == l
    requires Transit(p) == if x == Lock(None, Some(t)) then Some(l) else None
    requires Holds(p).None?
    ensures LockInv(semas', locks[l := x], pc[t := p])
  {
    var locks', pc' := locks[l := x], pc[t := p];
    assert LockOk(semas, l, locks[l]);
    forall l' | l' in locks' ensures LockOk(semas', l', locks'[l']) {
      if l' != l {
        assert LockOk(semas, l', locks[l']);
      }
    }
  }

  // ---------------------------------------------------------------------
  // Condition variables
  // ---------------------------------------------------------------------

  /** How far the signal for a thread in cond_wait() has come: the thread is on the
      list; u has taken it off and will up its semaphore; the semaphore was upped;
      the thread has downed it. */
  datatype Stage = Listed(c: CondId) | Picked(c: CondId, u: nat) | Posted(c: CondId) | Got(c: CondId)

  /** Whether a thread is in cond_wait (c), and whether it has downed its semaphore. */
  datatype Phase = NoWait | InWait(c: CondId, done: bool)

  /** The phase of thread t when it stands at p. */
  function PhaseOf(p: Pc, t: nat): (r: Phase) {
    match p
    case CondRelease(c) => InWait(c, false)
    case Release(l, Some(c)) => if l == c.lock then InWait(c, false) else NoWait
    case SetHolder(l, Some(c)) => if l == c.lock then InWait(c, true) else NoWait
    case Down(s, cont) => ContPhase(s, cont, t)
    case Waiting(s, cont) => ContPhase(s, cont, t)
    case Woken(s, cont) => ContPhase(s, cont, t)
    case _ => NoWait
  }

  function ContPhase(s: SemaId, cont: Cont, t: nat): (r: Phase) {
    match cont
    case Return => NoWait
    case Reacquire(c) => if s == OfWaiter(t) then InWait(c, false) else NoWait
    case TakeLock(l, Some(c)) => if s == OfLock(l) && l == c.lock then InWait(c, true) else NoWait
    case TakeLock(_, None) => NoWait
  }

  ghost predicate StageOk(stage: Stage, semas: map<SemaId, Sema>, pc: map<nat, Pc>, t: nat) {
    && t in pc && OfWaiter(t) in semas && semas[OfWaiter(t)].init == 0
    && var x := semas[OfWaiter(t)];
    match stage
    case Listed(c) => PhaseOf(pc[t], t) == InWait(c, false) && (x.ups, x.downs) == (0, 0)
    case Picked(c, u) =>
      && PhaseOf(pc[t], t) == InWait(c, false) && (x.ups, x.downs) == (0, 0)
      && u in pc && pc[u].SignalUp? && pc[u].c == c && pc[u].w == t
    case Posted(c) => PhaseOf(pc[t], t) == InWait(c, false) && (x.ups, x.downs) == (1, 0)
    case Got(c) => PhaseOf(pc[t], t) == InWait(c, true) && (x.ups, x.downs) == (1, 1)
  }

  ghost function ListSet(stage: map<nat, Stage>, c: CondId): (s: set<nat>) {
    set t | t in stage && stage[t] == Listed(c)
  }

  /** The list of every condition variable names exactly the listed threads. */
  ghost predicate ListsOk(conds: map<CondId, seq<nat>>, stage: map<nat, Stage>) {
    && (forall c {:trigger conds[c]} :: c in conds ==> ListOf(conds[c], ListSet(stage, c)))
    && (forall t {:trigger stage[t]} :: t in stage ==> stage[t].c in conds)
  }

  ghost predicate StagesOk(semas: map<SemaId, Sema>, stage: map<nat, Stage>, pc: map<nat, Pc>) {
    forall t {:trigger StageOk(stage[t], semas, pc, t)} :: t in stage ==> StageOk(stage[t], semas, pc, t)
  }

  /** Every thread in cond_wait() has a stage, and every pending signal has its thread. */
  ghost predicate PhasesOk(stage: map<nat, Stage>, pc: map<nat, Pc>) {
    && (forall t {:trigger PhaseOf(pc[t], t)} :: t in pc && PhaseOf(pc[t], t).InWait? ==> t in stage)
    && (forall u {:trigger pc[u]} :: u in pc && pc[u].SignalUp? ==>
          pc[u].w in stage && stage[pc[u].w] == Picked(pc[u].c, u))
  }

  ghost predicate CondInv(semas: map<SemaId, Sema>, conds: map<CondId, seq<nat>>, stage: map<nat, Stage>,
                          pc: map<nat, Pc>) {
    ListsOk(conds, stage) && StagesOk(semas, stage, pc) && PhasesOk(stage, pc)
  }

  /** The semaphores of the waiters have the same ups and downs. */
  ghost predicate SameWaiterCounts(semas: map<SemaId, Sema>, semas': map<SemaId, Sema>, stage: map<nat, Stage>) {
    forall t {:trigger stage[t]} :: t in stage && OfWaiter(t) in semas ==>
      OfWaiter(t) in semas' && SameCounts(semas[OfWaiter(t)], semas'[OfWaiter(t)])
  }

  predicate SameCounts(x: Sema, y: Sema) {
    y.init == x.init && y.ups == x.ups && y.downs == x.downs
  }

  /** t comes to stand at p in the same phase of the same cond_wait(), if any. */
  ghost predicate SamePhase(pc: map<nat, Pc>, t: nat, p: Pc) {
    && PhaseOf(p, t) == (if t in pc then PhaseOf(pc[t], t) else NoWait)
    && (t in pc && pc[t].SignalUp? ==> p == pc[t]) && (p.SignalUp? ==> t in pc && p == pc[t])
  }

  lemma StageKept(st: Stage, semas: map<SemaId, Sema>, semas': map<SemaId, Sema>, pc: map<nat, Pc>, pc': map<nat, Pc>,
                  t: nat)
    requires StageOk(st, semas, pc, t) && t in pc' && PhaseOf(pc'[t], t) == PhaseOf(pc[t], t)
    requires OfWaiter(t) in semas' && SameCounts(semas[OfWaiter(t)], semas'[OfWaiter(t)])
    requires st.Picked? ==> st.u in pc' && pc'[st.u] == pc[st.u]
    ensures StageOk(st, semas', pc', t)
  {
  }

  /** A step that has nothing to do with condition variables. */
  lemma CondFrame(semas: map<SemaId, Sema>, semas': map<SemaId, Sema>, conds: map<CondId, seq<nat>>,
                  stage: map<nat, Stage>,
                  pc: map<nat, Pc>, t: nat, p: Pc)
    requires CondInv(semas, conds, stage, pc) && SameWaiterCounts(semas, semas', stage) && SamePhase(pc, t, p)
    ensures CondInv(semas', conds, stage, pc[t := p])
  {
    forall t' | t' in stage ensures StageOk(stage[t'], semas', pc[t := p], t') {
      assert StageOk(stage[t'], semas, pc, t');
      StageKept(stage[t'], semas, semas', pc, pc[t := p], t');
    }
    PhasesKept(stage, pc, t, p);
  }

  /** A step on a semaphore that belongs to no waiter. */
  lemma CondCounts(semas: map<SemaId, Sema>, semas': map<SemaId, Sema>, conds: map<CondId, seq<nat>>,
                   stage: map<nat, Stage>,
                   pc: map<nat, Pc>)
    requires CondInv(semas, conds, stage, pc) && SameWaiterCounts(semas, semas', stage)
    ensures CondInv(semas', conds, stage, pc)
  {
    forall t' | t' in stage ensures StageOk(stage[t'], semas', pc, t') {
      assert StageOk(stage[t'], semas, pc, t');
      StageKept(stage[t'], semas, semas', pc, pc, t');
    }
  }

  lemma PhasesKept(stage: map<nat, Stage>, pc: map<nat, Pc>, t: nat, p: Pc)
    requires PhasesOk(stage, pc) && SamePhase(pc, t, p)
    ensures PhasesOk(stage, pc[t := p])
  {
    var pc' := pc[t := p];
    assert forall t' :: t' in pc' && PhaseOf(pc'[t'], t').InWait? ==> t' in pc && PhaseOf(pc[t'], t').InWait?;
  }

  /** The stage of thread w changes while t comes to stand at p. */
  lemma CondChange(semas: map<SemaId, Sema>, semas': map<SemaId, Sema>, conds: map<CondId, seq<nat>>,
                   conds': map<CondId, seq<nat>>,
                   stage: map<nat, Stage>, w: nat, st: Stage, pc: map<nat, Pc>, t: nat, p: Pc)
    requires CondInv(semas, conds, stage, pc) && t in pc && conds'.Keys == conds.Keys && st.c in conds
    requires forall c {:trigger conds'[c]} :: c in conds' ==> ListOf(conds'[c], ListSet(stage[w := st], c))
    requires forall t' {:trigger stage[t']} :: t' in stage && t' != w && OfWaiter(t') in semas ==>
      OfWaiter(t') in semas' && SameCounts(semas[OfWaiter(t')], semas'[OfWaiter(t')])
    requires StageOk(st, semas', pc[t := p], w)
    requires t != w ==> PhaseOf(p, t) == PhaseOf(pc[t], t)
    requires pc[t].SignalUp? ==> pc[t].w == w
    requires p.SignalUp? ==> p.w == w && st == Picked(p.c, t)
    requires w in stage && stage[w].Picked? ==> stage[w].u == t
    ensures CondInv(semas', conds', stage[w := st], pc[t := p])
  {
    var stage', pc' := stage[w := st], pc[t := p];
    forall t' | t' in stage' ensures StageOk(stage'[t'], semas', pc', t') {
      if t' != w {
        assert StageOk(stage[t'], semas, pc, t');
        StageKept(stage[t'], semas, semas', pc, pc', t');
      }
    }
    PhasesChange(stage, w, st, pc, t, p);
  }

  lemma PhasesChange(stage: map<nat, Stage>, w: nat, st: Stage, pc: map<nat, Pc>, t: nat, p: Pc)
    requires PhasesOk(stage, pc) && t in pc && (t != w ==> PhaseOf(p, t) == PhaseOf(pc[t], t))
    requires pc[t].SignalUp? ==> pc[t].w == w
    requires p.SignalUp? ==> p.w == w && st == Picked(p.c, t)
    requires w in stage && stage[w].Picked? ==> stage[w].u == t
    ensures PhasesOk(stage[w := st], pc[t := p])
  {
    var pc' := pc[t := p];
    assert forall t' :: t' in pc' && PhaseOf(pc'[t'], t').InWait? ==>
      t' == w || (t' in pc && PhaseOf(pc[t'], t').InWait?);
  }

  /** cond_wait() returns: w is no longer in it. */
  lemma CondReturn(semas: map<SemaId, Sema>, conds: map<CondId, seq<nat>>, stage: map<nat, Stage>, pc: map<nat, Pc>,
                   t: nat, c: CondId)
    requires CondInv(semas, conds, stage, pc) && t in pc && pc[t] == SetHolder(c.lock, Some(c))
    ensures t in stage && stage[t] == Got(c) && OfWaiter(t) in semas && semas[OfWaiter(t)].ups == 1
    ensures CondInv(semas, conds, stage - {t}, pc[t := Free])
  {
    assert PhaseOf(pc[t], t) == InWait(c, true);
    assert StageOk(stage[t], semas, pc, t);
    var stage', pc' := stage - {t}, pc[t := Free];
    forall t' | t' in stage' ensures StageOk(stage'[t'], semas, pc', t') {
      assert StageOk(stage[t'], semas, pc, t');
      StageKept(stage[t'], semas, semas, pc, pc', t');
    }
    forall c' | c' in conds ensures ListOf(conds[c'], ListSet(stage', c')) {
      assert ListSet(stage', c') == ListSet(stage, c');
    }
    PhasesLeft(stage, pc, t);
  }

  lemma PhasesLeft(stage: map<nat, Stage>, pc: map<nat, Pc>, t: nat)
    requires PhasesOk(stage, pc) && t in pc && !pc[t].SignalUp? && (t in stage ==> !stage[t].Picked?)
    ensures PhasesOk(stage - {t}, pc[t := Free])
  {
    var pc' := pc[t := Free];
    assert forall t' :: t' in pc' && PhaseOf(pc'[t'], t').InWait? ==> t' in pc && PhaseOf(pc[t'], t').InWait?;
  }

  lemma ListSetUpdate(stage: map<nat, Stage>, w: nat, st: Stage, c: CondId)
    ensures ListSet(stage[w := st], c) == if st == Listed(c) then ListSet(stage, c) + {w} else ListSet(stage, c) - {w}
  {
  }

  /** The lists of the condition variables when w changes from one stage that is not
      Listed to another. */
  lemma ListsKept(conds: map<CondId, seq<nat>>, stage: map<nat, Stage>, w: nat, st: Stage)
    requires forall c {:trigger conds[c]} :: c in conds ==> ListOf(conds[c], ListSet(stage, c))
    requires (w in stage ==> !stage[w].Listed?) && !st.Listed?
    ensures forall c {:trigger conds[c]} :: c in conds ==> ListOf(conds[c], ListSet(stage[w := st], c))
  {
    forall c | c in conds ensures ListOf(conds[c], ListSet(stage[w := st], c)) {
      ListSetUpdate(stage, w, st, c);
      assert ListSet(stage, c) - {w} == ListSet(stage, c);
    }
  }

  /** cond_wait() puts w on the list of c. */
  lemma ListsPushed(conds: map<CondId, seq<nat>>, stage: map<nat, Stage>, w: nat, c: CondId)
    requires forall c {:trigger conds[c]} :: c in conds ==> ListOf(conds[c], ListSet(stage, c))
    requires w !in stage && c in conds
    ensures var conds' := conds[c := conds[c] + [w]];
      forall c' {:trigger conds'[c']} :: c' in conds' ==> ListOf(conds'[c'], ListSet(stage[w := Listed(c)], c'))
  {
    var conds' := conds[c := conds[c] + [w]];
    forall c' | c' in conds' ensures ListOf(conds'[c'], ListSet(stage[w := Listed(c)], c')) {
      ListSetUpdate(stage, w, Listed(c), c');
      if c' == c {
        ListPush(conds[c], ListSet(stage, c), w);
      } else {
        assert ListSet(stage, c') - {w} == ListSet(stage, c');
      }
    }
  }

  /** cond_signal() takes the first thread off the list of c. */
  lemma ListsPopped(conds: map<CondId, seq<nat>>, stage: map<nat, Stage>, c: CondId, st: Stage)
    requires forall c {:trigger conds[c]} :: c in conds ==> ListOf(conds[c], ListSet(stage, c))
    requires c in conds && conds[c] != [] && !st.Listed?
    ensures var w, conds' := conds[c][0], conds[c := conds[c][1..]];
      && w in stage && stage[w] == Listed(c)
      && forall c' {:trigger conds'[c']} :: c' in conds' ==> ListOf(conds'[c'], ListSet(stage[w := st], c'))
  {
    var w, conds' := conds[c][0], conds[c := conds[c][1..]];
    assert w in ListSet(stage, c);
    forall c' | c' in conds' ensures ListOf(conds'[c'], ListSet(stage[w := st], c')) {
      ListSetUpdate(stage, w, st, c');
      if c' != c {
        assert ListSet(stage, c') - {w} == ListSet(stage, c');
      }
    }
  }
}
