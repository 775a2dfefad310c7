/** Semaphores: src/threads/synch.c, lines 44-121. */
module Semaphores {
  import opened DistinctLists
  import opened Threads

  /** A semaphore, with its initial value and the ups and completed downs so far. */
  datatype Sema = Sema(value: nat, waiters: seq<nat>, init: nat, ups: nat, downs: nat)

  predicate On(p: Pc, s: SemaId) {
    (p.Waiting? || p.Woken?) && p.s == s
  }

  ghost function WaitSet(pc: map<nat, Pc>, s: SemaId): (r: set<nat>) {
    set t | t in pc && pc[t].Waiting? && pc[t].s == s
  }

  /** The threads that sema_up() took off the list and that have not looked at the
      value since. */
  ghost function WokenSet(pc: map<nat, Pc>, s: SemaId): (r: set<nat>) {
    set t | t in pc && pc[t].Woken? && pc[t].s == s
  }

  /** No wakeup is lost: while threads wait, every unit of the value is on its way to
      a woken thread; and the value counts ups and downs. */
  ghost predicate SemaOk(x: Sema, s: SemaId, pc: map<nat, Pc>) {
    && ListOf(x.waiters, WaitSet(pc, s))
    && (x.waiters != [] ==> x.value <= |WokenSet(pc, s)|)
    && x.value + x.downs == x.init + x.ups
  }

  ghost predicate SemaInv(semas: map<SemaId, Sema>, pc: map<nat, Pc>) {
    && (forall s {:trigger SemaOk(semas[s], s, pc)} :: s in semas ==> SemaOk(semas[s], s, pc))
    && (forall t {:trigger pc[t]} :: t in pc && (pc[t].Waiting? || pc[t].Woken?) ==> pc[t].s in semas)
  }

  /** sema_init() */
  function NewSema(value: nat): (x: Sema) {
    Sema(value, [], value, 0, 0)
  }

  /** The end of sema_down(): the value was positive. */
  function Taken(x: Sema): (r: Sema)
    requires x.value > 0
  {
    x.(value := x.value - 1, downs := x.downs + 1)
  }

  /** One turn of the loop of sema_down(), up to thread_block(). */
  function Queued(x: Sema, t: nat): (r: Sema) {
    x.(waiters := x.waiters + [t])
  }

  /** sema_up(), without waking the first waiter. */
  function Upped(x: Sema): (r: Sema) {
    x.(value := x.value + 1, waiters := if x.waiters == [] then [] else x.waiters[1..], ups := x.ups + 1)
  }

  // ---------------------------------------------------------------------
  // Changing where one thread stands
  // ---------------------------------------------------------------------

  lemma SetsUpdate(pc: map<nat, Pc>, t: nat, p: Pc, s: SemaId)
    ensures WaitSet(pc[t := p], s) == if p.Waiting? && p.s == s then WaitSet(pc, s) + {t} else WaitSet(pc, s) - {t}
    ensures WokenSet(pc[t := p], s) == if p.Woken? && p.s == s then WokenSet(pc, s) + {t} else WokenSet(pc, s) - {t}
  {
  }

  /** A semaphore that the thread does not turn to or from is not affected. */
  lemma OtherSema(x: Sema, s: SemaId, pc: map<nat, Pc>, t: nat, p: Pc)
    requires SemaOk(x, s, pc) && (t in pc ==> !On(pc[t], s)) && !On(p, s)
    ensures SemaOk(x, s, pc[t := p])
  {
    SetsUpdate(pc, t, p, s);
    assert WaitSet(pc, s) - {t} == WaitSet(pc, s) && WokenSet(pc, s) - {t} == WokenSet(pc, s);
  }

  /** One semaphore s changes to x while thread t goes to p. */
  lemma SemaChange(semas: map<SemaId, Sema>, pc: map<nat, Pc>, s: SemaId, x: Sema, t: nat, p: Pc)
    requires SemaInv(semas, pc) && SemaOk(x, s, pc[t := p])
    requires t in pc && (pc[t].Waiting? || pc[t].Woken?) ==> pc[t].s == s
    requires p.Waiting? || p.Woken? ==> p.s == s
    ensures SemaInv(semas[s := x], pc[t := p])
  {
    var semas', pc' := semas[s := x], pc[t := p];
    forall s' | s' in semas' ensures SemaOk(semas'[s'], s', pc') {
      if s' != s {
        assert SemaOk(semas[s'], s', pc);
        OtherSema(semas[s'], s', pc, t, p);
      }
    }
  }

  /** A thread that is on no semaphore stays off them. */
  lemma NoSemaChange(semas: map<SemaId, Sema>, pc: map<nat, Pc>, t: nat, p: Pc)
    requires SemaInv(semas, pc) && (t in pc ==> !pc[t].Waiting? && !pc[t].Woken?) && !p.Waiting? && !p.Woken?
    ensures SemaInv(semas, pc[t := p])
  {
    forall s | s in semas ensures SemaOk(semas[s], s, pc[t := p]) {
      OtherSema(semas[s], s, pc, t, p);
    }
  }

  // ---------------------------------------------------------------------
  // The operations
  // ---------------------------------------------------------------------

  /** The thread t, woken or just arrived, completes its sema_down(). */
  lemma TakeKeeps(semas: map<SemaId, Sema>, pc: map<nat, Pc>, s: SemaId, t: nat, p: Pc)
    requires SemaInv(semas, pc) && s in semas && semas[s].value > 0 && !p.Waiting? && !p.Woken?
    requires t in pc && !pc[t].Waiting? && (pc[t].Woken? ==> pc[t].s == s)
    ensures SemaInv(semas[s := Taken(semas[s])], pc[t := p])
  {
    assert SemaOk(semas[s], s, pc);
    SetsUpdate(pc, t, p, s);
    assert WaitSet(pc, s) - {t} == WaitSet(pc, s);
    assert |WokenSet(pc, s) - {t}| >= |WokenSet(pc, s)| - 1;
    assert !pc[t].Woken? ==> WokenSet(pc, s) - {t} == WokenSet(pc, s);
    SemaChange(semas, pc, s, Taken(semas[s]), t, p);
  }

  /** The thread t, woken or just arrived, finds the value zero and waits. */
  lemma WaitKeeps(semas: map<SemaId, Sema>, pc: map<nat, Pc>, s: SemaId, t: nat, cont: Cont)
    requires SemaInv(semas, pc) && s in semas && semas[s].value == 0
    requires t in pc && !pc[t].Waiting? && (pc[t].Woken? ==> pc[t].s == s)
    ensures SemaInv(semas[s := Queued(semas[s], t)], pc[t := Waiting(s, cont)])
  {
    assert SemaOk(semas[s], s, pc);
    SetsUpdate(pc, t, Waiting(s, cont), s);
    ListPush(semas[s].waiters, WaitSet(pc, s), t);
    SemaChange(semas, pc, s, Queued(semas[s], t), t, Waiting(s, cont));
  }

  /** sema_up() with a thread waiting: it becomes a woken one. */
  lemma WakeKeeps(semas: map<SemaId, Sema>, pc: map<nat, Pc>, s: SemaId)
    requires SemaInv(semas, pc) && s in semas && semas[s].waiters != []
    ensures var t := semas[s].waiters[0];
      && t in pc && pc[t].Waiting? && pc[t].s == s
      && SemaInv(semas[s := Upped(semas[s])], pc[t := Woken(s, pc[t].cont)])
  {
    var t := semas[s].waiters[0];
    assert SemaOk(semas[s], s, pc);
    assert t in WaitSet(pc, s);
    SetsUpdate(pc, t, Woken(s, pc[t].cont), s);
    assert t !in WokenSet(pc, s);
    SemaChange(semas, pc, s, Upped(semas[s]), t, Woken(s, pc[t].cont));
  }

  /** sema_up() with nobody waiting. */
  lemma UpKeeps(semas: map<SemaId, Sema>, pc: map<nat, Pc>, s: SemaId)
    requires SemaInv(semas, pc) && s in semas && semas[s].waiters == []
    ensures SemaInv(semas[s := Upped(semas[s])], pc)
  {
    var semas' := semas[s := Upped(semas[s])];
    forall s' | s' in semas' ensures SemaOk(semas'[s'], s', pc) {
      assert SemaOk(semas[s'], s', pc);
    }
  }

  /** sema_init() of a semaphore that nobody uses. */
  lemma InitKeeps(semas: map<SemaId, Sema>, pc: map<nat, Pc>, s: SemaId, value: nat)
    requires SemaInv(semas, pc) && forall t :: t in pc ==> !On(pc[t], s)
    ensures SemaInv(semas[s := NewSema(value)], pc)
  {
    var semas' := semas[s := NewSema(value)];
    assert WaitSet(pc, s) == {};
    forall s' | s' in semas' ensures SemaOk(semas'[s'], s', pc) {
      if s' != s {
        assert SemaOk(semas[s'], s', pc);
      }
    }
  }
}
