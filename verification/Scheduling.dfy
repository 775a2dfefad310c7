/** The scheduler: src/threads/thread.c. */
module Scheduling {
  import opened DistinctLists
  import opened Threads

  const TIME_SLICE: nat := 4

  /** The variables of thread.c.  A thread is known by its number; numbers are not
      used again. */
  datatype Sched = Sched(status: map<nat, Status>, ready: seq<nat>, cur: nat, idle: nat, initial: nat, threadTicks: nat)

  ghost function ReadySet(status: map<nat, Status>, idle: nat): (s: set<nat>) {
    set t | t in status && status[t] == Ready && t != idle
  }

  /** Facts that hold even in the middle of a switch. */
  ghost predicate Common(sc: Sched, pc: map<nat, Pc>) {
    && sc.cur in sc.status && sc.idle in sc.status && sc.status.Keys <= pc.Keys && sc.threadTicks < TIME_SLICE
    && ListOf(sc.ready, ReadySet(sc.status, sc.idle))
    && pc[sc.idle] == Free && sc.status[sc.idle] != Dying
    && (forall t {:trigger pc[t]} :: t in pc && OnList(pc[t]) ==> t in sc.status && sc.status[t] == Blocked)
    && (forall t {:trigger sc.status[t]} :: t in sc.status && sc.status[t] == Blocked ==> t == sc.idle || OnList(pc[t]))
  }

  /** What holds between two steps: exactly the current thread is running. */
  ghost predicate SchedInv(sc: Sched, pc: map<nat, Pc>) {
    && Common(sc, pc) && sc.status[sc.cur] == Running
    && (forall t {:trigger sc.status[t]} :: t in sc.status && t != sc.cur ==> sc.status[t] != Running)
    && (forall t {:trigger sc.status[t]} :: t in sc.status && sc.status[t] == Dying ==> t == sc.initial)
  }

  /** What holds when schedule() is called: the current thread's status has been
      changed from running, and only it may be dying. */
  ghost predicate Switching(sc: Sched, pc: map<nat, Pc>) {
    && Common(sc, pc)
    && (forall t {:trigger sc.status[t]} :: t in sc.status ==> sc.status[t] != Running)
    && (forall t {:trigger sc.status[t]} :: t in sc.status && sc.status[t] == Dying ==> t == sc.initial || t == sc.cur)
  }

  // ---------------------------------------------------------------------
  // The functions of thread.c
  // ---------------------------------------------------------------------

  /** thread_unblock() */
  function Unblock(sc: Sched, t: nat): (r: Sched) {
    sc.(ready := sc.ready + [t], status := sc.status[t := Ready])
  }

  /** next_thread_to_run() */
  function NextThread(sc: Sched): (t: nat) {
    if sc.ready == [] then sc.idle else sc.ready[0]
  }

  /** schedule() with thread_schedule_tail(): a dying thread that was switched away
      from is gone, unless it is the initial one. */
  function Schedule(sc: Sched): (r: Sched)
    requires sc.cur in sc.status
  {
    var next := NextThread(sc);
    var status := sc.status[next := Running];
    var gone := sc.cur != next && sc.status[sc.cur] == Dying && sc.cur != sc.initial;
    Sched(if gone then status - {sc.cur} else status, if sc.ready == [] then [] else sc.ready[1..],
          next, sc.idle, sc.initial, 0)
  }

  /** thread_block() up to schedule() */
  function Block(sc: Sched): (r: Sched) {
    sc.(status := sc.status[sc.cur := Blocked])
  }

  /** thread_yield() up to schedule() */
  function Yield(sc: Sched): (r: Sched) {
    sc.(status := sc.status[sc.cur := Ready], ready := if sc.cur != sc.idle then sc.ready + [sc.cur] else sc.ready)
  }

  /** thread_exit() up to schedule() */
  function Exit(sc: Sched): (r: Sched) {
    sc.(status := sc.status[sc.cur := Dying])
  }

  /** thread_create() up to thread_unblock() */
  function Create(sc: Sched, t: nat): (r: Sched) {
    sc.(status := sc.status[t := Blocked])
  }

  // ---------------------------------------------------------------------
  // What they keep
  // ---------------------------------------------------------------------

  /** A thread that leaves its list becomes ready. */
  lemma UnblockKeeps(sc: Sched, pc: map<nat, Pc>, t: nat, p: Pc)
    requires SchedInv(sc, pc) && t in sc.status && sc.status[t] == Blocked && t != sc.idle && !OnList(p)
    ensures SchedInv(Unblock(sc, t), pc[t := p])
  {
    ListPush(sc.ready, ReadySet(sc.status, sc.idle), t);
    assert ReadySet(Unblock(sc, t).status, sc.idle) == ReadySet(sc.status, sc.idle) + {t};
  }

  lemma CreateKeeps(sc: Sched, pc: map<nat, Pc>, t: nat)
    requires SchedInv(sc, pc) && t !in pc
    ensures SchedInv(Unblock(Create(sc, t), t), pc[t := Free])
  {
    ListPush(sc.ready, ReadySet(sc.status, sc.idle), t);
    assert Create(sc, t).status[t := Ready] == sc.status[t := Ready];
    assert ReadySet(sc.status[t := Ready], sc.idle) == ReadySet(sc.status, sc.idle) + {t};
  }

  /** The current thread goes on a list, or the idle thread blocks. */
  lemma BlockKeeps(sc: Sched, pc: map<nat, Pc>, p: Pc)
    requires SchedInv(sc, pc) && (if sc.cur == sc.idle then p == Free else OnList(p))
    ensures Switching(Block(sc), pc[sc.cur := p])
  {
    assert ReadySet(Block(sc).status, sc.idle) == ReadySet(sc.status, sc.idle);
  }

  lemma YieldKeeps(sc: Sched, pc: map<nat, Pc>)
    requires SchedInv(sc, pc)
    ensures Switching(Yield(sc), pc)
  {
    assert !OnList(pc[sc.cur]);
    if sc.cur != sc.idle {
      ListPush(sc.ready, ReadySet(sc.status, sc.idle), sc.cur);
      assert ReadySet(Yield(sc).status, sc.idle) == ReadySet(sc.status, sc.idle) + {sc.cur};
    } else {
      assert ReadySet(Yield(sc).status, sc.idle) == ReadySet(sc.status, sc.idle);
    }
  }

  lemma ExitKeeps(sc: Sched, pc: map<nat, Pc>)
    requires SchedInv(sc, pc) && sc.cur != sc.idle
    ensures Switching(Exit(sc), pc)
  {
    assert !OnList(pc[sc.cur]);
    assert ReadySet(Exit(sc).status, sc.idle) == ReadySet(sc.status, sc.idle);
  }

  /** The current thread moves on without giving up the processor. */
  lemma StayKeeps(sc: Sched, pc: map<nat, Pc>, p: Pc)
    requires SchedInv(sc, pc) && sc.cur != sc.idle && !OnList(p)
    ensures SchedInv(sc, pc[sc.cur := p])
  {
  }

  /** After schedule() exactly one thread runs, and it is the first ready one. */
  lemma ScheduleKeeps(sc: Sched, pc: map<nat, Pc>)
    requires Switching(sc, pc)
    ensures SchedInv(Schedule(sc), pc)
  {
    var next, r := NextThread(sc), Schedule(sc);
    assert next in sc.status && !OnList(pc[next]);
    if sc.ready == [] {
      assert ReadySet(r.status, sc.idle) == {};
    } else {
      assert ReadySet(r.status, sc.idle) == ReadySet(sc.status, sc.idle) - {next};
    }
  }
}
