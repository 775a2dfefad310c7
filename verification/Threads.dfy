/** Threads and what they wait for: the data that src/threads/thread.c,
    src/threads/synch.c and src/devices/timer.c share. */
module Threads {
  import opened Options

  datatype Status = Running | Ready | Blocked | Dying

  /** A semaphore: one of the program's own, the one inside a lock, or the one that
      thread t puts on its stack in cond_wait(). */
  datatype SemaId = Plain(n: nat) | OfLock(l: nat) | OfWaiter(t: nat)

  /** A condition variable is used with one lock only. */
  datatype CondId = Cond(lock: nat, n: nat)

  /** What follows a sema_down(): nothing, setting the holder in lock_acquire(), or
      acquiring the lock again in cond_wait(). */
  datatype Cont = Return | TakeLock(l: nat, cond: Option<CondId>) | Reacquire(c: CondId)

  /** Where a thread stands between two steps. */
  datatype Pc =
    | Free
    | Down(s: SemaId, cont: Cont)                  // about to call sema_down()
    | Waiting(s: SemaId, cont: Cont)               // on the wait list of s
    | Woken(s: SemaId, cont: Cont)                 // taken off it by sema_up(), has not looked at the value yet
    | SetHolder(l: nat, cond: Option<CondId>)      // has downed the semaphore of l
    | Release(l: nat, cond: Option<CondId>)        // has cleared the holder of l, is about to up its semaphore
    | CondRelease(c: CondId)                       // is on the list of c, is about to release the lock
    | SignalUp(c: CondId, w: nat, more: bool)      // has taken w off the list of c, is about to up its semaphore
    | Broadcast(c: CondId)                         // at the loop test of cond_broadcast()
    | SleepCall(wake: int)                         // in timer_sleep(), interrupts still on
    | Asleep(wake: int)                            // on the sleep list

  /** The thread is on a wait list or on the sleep list. */
  predicate OnList(p: Pc) {
    p.Waiting? || p.Asleep?
  }
}
