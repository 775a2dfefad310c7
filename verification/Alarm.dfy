/** The alarm clock: src/devices/timer.c. */
module Alarm {
  import opened Threads

  /** A thread on the sleep list, with the tick at which it is to wake up
      (ticks_to_sleep), and a number that tells in which order the threads came. */
  datatype Sleeper = Sleeper(t: nat, wake: int, arrival: nat)

  datatype Clock = Clock(ticks: int, sleepers: seq<Sleeper>, arrivals: nat)

  /** is_less_than() */
  predicate IsLessThan(x: Sleeper, y: Sleeper) {
    x.wake < y.wake
  }

  /** list_insert_ordered() with is_less_than(): in front of the first later one. */
  function Insert(x: Sleeper, xs: seq<Sleeper>): (r: seq<Sleeper>) {
    if xs == [] || IsLessThan(x, xs[0]) then [x] + xs else [xs[0]] + Insert(x, xs[1..])
  }

  ghost predicate Earlier(x: Sleeper, y: Sleeper) {
    x.wake < y.wake || (x.wake == y.wake && x.arrival < y.arrival)
  }

  /** Sorted by wake tick, ties in arrival order. */
  ghost predicate InOrder(xs: seq<Sleeper>) {
    forall i, j :: 0 <= i < j < |xs| ==> Earlier(xs[i], xs[j])
  }

  ghost function SleepSet(pc: map<nat, Pc>): (s: set<nat>) {
    set t | t in pc && pc[t].Asleep?
  }

  /** xs lists exactly the threads of s, which sleep, each once and with its wake tick. */
  ghost predicate SleepersOf(xs: seq<Sleeper>, pc: map<nat, Pc>, s: set<nat>) {
    if xs == [] then s == {} else
      xs[0].t in s && xs[0].t in pc && pc[xs[0].t] == Asleep(xs[0].wake) && SleepersOf(xs[1..], pc, s - {xs[0].t})
  }

  ghost predicate AlarmInv(c: Clock, pc: map<nat, Pc>) {
    && InOrder(c.sleepers) && (forall i :: 0 <= i < |c.sleepers| ==> c.sleepers[i].arrival < c.arrivals)
    && SleepersOf(c.sleepers, pc, SleepSet(pc))
  }

  lemma {:induction false} InsertAt(x: Sleeper, xs: seq<Sleeper>) returns (k: nat)
    ensures k <= |xs| && Insert(x, xs) == xs[..k] + [x] + xs[k..]
    ensures (forall i :: 0 <= i < k ==> xs[i].wake <= x.wake) && (k < |xs| ==> x.wake < xs[k].wake)
  {
    if xs == [] || IsLessThan(x, xs[0]) {
      k := 0;
    } else {
      k := InsertAt(x, xs[1..]);
      assert [xs[0]] + (xs[1..][..k] + [x] + xs[1..][k..]) == xs[..k + 1] + [x] + xs[k + 1..];
      k := k + 1;
      assert forall i :: 1 <= i < k ==> xs[i] == xs[1..][i - 1];
    }
  }

  /** Inserting keeps the list sorted with ties in arrival order. */
  lemma InsertInOrder(x: Sleeper, xs: seq<Sleeper>)
    requires InOrder(xs) && forall i :: 0 <= i < |xs| ==> xs[i].arrival < x.arrival
    ensures InOrder(Insert(x, xs))
    ensures forall i :: 0 <= i < |Insert(x, xs)| ==> Insert(x, xs)[i].arrival <= x.arrival
  {
    var k := InsertAt(x, xs);
    var r := Insert(x, xs);
    forall i, j | 0 <= i < j < |r| ensures Earlier(r[i], r[j]) {
      if i == k && k + 1 < j {
        assert Earlier(xs[k], xs[j - 1]);
      }
    }
  }

  lemma {:induction false} InsertSleepers(x: Sleeper, xs: seq<Sleeper>, pc: map<nat, Pc>, s: set<nat>)
    requires SleepersOf(xs, pc, s) && x.t !in s
    ensures SleepersOf(Insert(x, xs), pc[x.t := Asleep(x.wake)], s + {x.t})
  {
    var pc' := pc[x.t := Asleep(x.wake)];
    if xs == [] || IsLessThan(x, xs[0]) {
      assert ([x] + xs)[1..] == xs && (s + {x.t}) - {x.t} == s;
      SleepersKept(xs, pc, pc', s);
    } else {
      InsertSleepers(x, xs[1..], pc, s - {xs[0].t});
      assert ([xs[0]] + Insert(x, xs[1..]))[1..] == Insert(x, xs[1..]);
      assert (s + {x.t}) - {xs[0].t} == (s - {xs[0].t}) + {x.t};
    }
  }

  lemma {:induction false} SleepersKept(xs: seq<Sleeper>, pc: map<nat, Pc>, pc': map<nat, Pc>, s: set<nat>)
    requires SleepersOf(xs, pc, s) && forall t :: t in s && t in pc ==> t in pc' && pc'[t] == pc[t]
    ensures SleepersOf(xs, pc', s)
  {
    if xs != [] {
      SleepersKept(xs[1..], pc, pc', s - {xs[0].t});
    }
  }

  /** A thread that neither sleeps nor falls asleep does not matter to the clock. */
  lemma ClockKeeps(c: Clock, pc: map<nat, Pc>, t: nat, p: Pc)
    requires AlarmInv(c, pc) && (t in pc ==> !pc[t].Asleep?) && !p.Asleep?
    ensures AlarmInv(c, pc[t := p])
  {
    assert SleepSet(pc[t := p]) == SleepSet(pc);
    SleepersKept(c.sleepers, pc, pc[t := p], SleepSet(pc));
  }

  /** The first statement of timer_sleep() for the given number of ticks. */
  function WakeTick(c: Clock, duration: int): (wake: int) {
    c.ticks + duration
  }

  /** timer_sleep() up to thread_block() */
  function Sleep(c: Clock, t: nat, wake: int): (r: Clock) {
    c.(sleepers := Insert(Sleeper(t, wake, c.arrivals), c.sleepers), arrivals := c.arrivals + 1)
  }

  lemma SleepKeeps(c: Clock, pc: map<nat, Pc>, t: nat, wake: int)
    requires AlarmInv(c, pc) && t in pc && !pc[t].Asleep?
    ensures AlarmInv(Sleep(c, t, wake), pc[t := Asleep(wake)])
  {
    var x := Sleeper(t, wake, c.arrivals);
    InsertInOrder(x, c.sleepers);
    InsertSleepers(x, c.sleepers, pc, SleepSet(pc));
    assert SleepSet(pc[t := Asleep(wake)]) == SleepSet(pc) + {t};
  }

  // ---------------------------------------------------------------------
  // The timer interrupt
  // ---------------------------------------------------------------------

  /** How many sleepers at the front of the list are due. */
  function Due(xs: seq<Sleeper>, now: int): (n: nat)
    ensures n <= |xs| && (n < |xs| ==> now < xs[n].wake)
    ensures forall i :: 0 <= i < n ==> xs[i].wake <= now
  {
    if xs == [] || now < xs[0].wake then 0 else 1 + Due(xs[1..], now)
  }

  /** In a sorted list these are all that are due. */
  lemma DueIsAll(xs: seq<Sleeper>, now: int)
    requires InOrder(xs)
    ensures forall i :: Due(xs, now) <= i < |xs| ==> now < xs[i].wake
  {
    var n := Due(xs, now);
    forall i | n <= i < |xs| ensures now < xs[i].wake {
      assert n < i ==> Earlier(xs[n], xs[i]);
    }
  }

  function Tids(xs: seq<Sleeper>): (ts: seq<nat>)
    ensures |ts| == |xs| && forall i :: 0 <= i < |xs| ==> ts[i] == xs[i].t
  {
    seq(|xs|, i requires 0 <= i < |xs| => xs[i].t)
  }

  /** Taking sleepers off the front keeps the rest in order. */
  lemma SuffixKeeps(c: Clock, pc: map<nat, Pc>, n: nat, now: int)
    requires n <= |c.sleepers| && InOrder(c.sleepers) && SleepersOf(c.sleepers[n..], pc, SleepSet(pc))
    requires forall i :: 0 <= i < |c.sleepers| ==> c.sleepers[i].arrival < c.arrivals
    ensures AlarmInv(c.(ticks := now, sleepers := c.sleepers[n..]), pc)
  {
  }
}
