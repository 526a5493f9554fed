/** The round-robin scheduler of threads/thread.c: thread states, the ready list, and the sections
    that run with interrupts off. A thread is known by the address of its page, here a number. */
module Scheduler {

  type Tid = nat

  datatype Status = Running | Ready | Blocked | Dying

  /** The page of the initial thread was not allocated, so that it is never freed. */
  const INITIAL: Tid := 0

  /** What thread.c keeps. The pointer idle_thread is null until the idle thread has run; entered and
      dispatched are a history of what was put on the ready list and of what was taken from it. */
  datatype Sched = Sched(
    status: map<Tid, Status>,
    ready: seq<Tid>,
    current: Tid,
    idleKnown: bool,
    idleThread: Tid,
    entered: seq<Tid>,
    dispatched: seq<Tid>)

  predicate IsIdle(c: Sched, t: Tid) {
    c.idleKnown && t == c.idleThread
  }

  // ----- The sections -----------------------------------------------------------------------------

  /** list_push_back (&ready_list, &t->elem), and the new status. */
  function Enqueue(c: Sched, t: Tid): Sched {
    c.(ready := c.ready + [t], entered := c.entered + [t], status := c.status[t := Ready])
  }

  /** thread_unblock. */
  function Unblock(c: Sched, t: Tid): Sched
    requires t in c.status && c.status[t].Blocked?
  {
    Enqueue(c, t)
  }

  /** next_thread_to_run is the front of the ready list, or idle_thread: null while that is unset. */
  predicate SomeoneToRun(c: Sched) {
    c.ready != [] || c.idleKnown
  }

  /** schedule, with the part of thread_schedule_tail that frees a dying thread. */
  function Schedule(c: Sched): Sched
    requires SomeoneToRun(c)
    requires c.current in c.status && !c.status[c.current].Running?
  {
    var next := if c.ready == [] then c.idleThread else c.ready[0];
    var status := c.status[next := Running];
    var prev := c.current;
    var dispatched := if c.ready == [] then c.dispatched else c.dispatched + [next];
    c.(ready := if c.ready == [] then [] else c.ready[1..], current := next, dispatched := dispatched,
       status := if prev != next && c.status[prev].Dying? && prev != INITIAL then status - {prev} else status)
  }

  /** thread_block. */
  function Block(c: Sched): Sched
    requires SomeoneToRun(c)
  {
    Schedule(c.(status := c.status[c.current := Blocked]))
  }

  /** thread_yield. */
  function Yield(c: Sched): Sched
    requires c.current in c.status
  {
    if IsIdle(c, c.current) then Schedule(c.(status := c.status[c.current := Ready]))
    else Schedule(Enqueue(c, c.current))
  }

  /** thread_exit. */
  function Exit(c: Sched): Sched
    requires SomeoneToRun(c)
  {
    Schedule(c.(status := c.status[c.current := Dying]))
  }

  /** init_thread. */
  function Create(c: Sched, t: Tid): Sched {
    c.(status := c.status[t := Blocked])
  }

  /** The first thing that idle does. */
  function BecomeIdle(c: Sched): Sched {
    c.(idleKnown := true)
  }

  // ----- What every section keeps -----------------------------------------------------------------

  predicate Distinct(s: seq<Tid>) {
    forall i, j :: 0 <= i < j < |s| ==> s[i] != s[j]
  }

  /** The ready list holds exactly the ready threads other than idle, once each, and is first in,
      first out. */
  predicate QueueInv(c: Sched) {
    && Distinct(c.ready)
    && (forall t | t in c.ready :: t in c.status && c.status[t].Ready? && !IsIdle(c, t))
    && (forall t | t in c.status && c.status[t].Ready? && !IsIdle(c, t) :: t in c.ready)
    && c.idleThread in c.status && !c.status[c.idleThread].Dying?
    && c.entered == c.dispatched + c.ready
  }

  /** Exactly the current thread is running. Until idle_thread is set, the thread that will set it
      runs or is ready. */
  predicate SchedInv(c: Sched) {
    && QueueInv(c)
    && c.current in c.status
    && (forall t | t in c.status :: c.status[t].Running? <==> t == c.current)
    && (!c.idleKnown ==> c.idleThread == c.current || c.idleThread in c.ready)
  }

  /** Inside schedule no thread is marked running. */
  predicate BetweenThreads(c: Sched) {
    && QueueInv(c)
    && c.current in c.status
    && (forall t | t in c.status :: !c.status[t].Running?)
    && (!c.idleKnown ==> c.idleThread in c.ready)
  }

  /** schedule always finds a thread, and the thread that it finds was ready or is idle. */
  lemma ScheduleKeeps(c: Sched)
    requires BetweenThreads(c)
    ensures SomeoneToRun(c) && SchedInv(Schedule(c))
    ensures c.ready == [] ==> Schedule(c).current == c.idleThread
    ensures c.ready != [] ==> Schedule(c).current == c.ready[0]
  {
    assert Distinct(c.ready);
    hide Schedule, QueueInv;
    ScheduleStatus(c);
    ScheduleQueue(c);
    if c.ready != [] {
      FrontLeaves(c.ready);
    }
    QueueAfterSwitch(c, Schedule(c));
  }

  lemma QueueAfterSwitch(c: Sched, c': Sched)
    requires QueueInv(c) && forall t | t in c.status :: !c.status[t].Running?
    requires c'.current == (if c.ready == [] then c.idleThread else c.ready[0])
    requires c'.ready == (if c.ready == [] then [] else c.ready[1..])
    requires c'.idleKnown == c.idleKnown && c'.idleThread == c.idleThread && c'.idleThread in c'.status
    requires c'.current in c'.status && c'.status[c'.current].Running?
    requires forall t | t in c'.status :: t in c.status && (t != c'.current ==> c'.status[t] == c.status[t])
    requires forall t | t in c.status && c.status[t].Ready? :: t in c'.status
    requires c'.entered == c'.dispatched + c'.ready
    ensures QueueInv(c')
  {
    if c.ready != [] {
      FrontLeaves(c.ready);
    }
    hide Distinct;
  }

  /** What schedule does to the thread table. */
  lemma ScheduleStatus(c: Sched)
    requires BetweenThreads(c)
    ensures SomeoneToRun(c)
    ensures var c', next := Schedule(c), if c.ready == [] then c.idleThread else c.ready[0];
      && c'.current == next && c'.idleKnown == c.idleKnown && c'.idleThread == c.idleThread
      && next in c'.status && c'.status[next].Running? && c.idleThread in c'.status
      && (forall t | t in c'.status :: t in c.status && (t != next ==> c'.status[t] == c.status[t]))
      && (forall t | t in c.status && t != c.current :: t in c'.status)
      && (c.current in c'.status <==> !c.status[c.current].Dying? || c.current == INITIAL)
  {
  }

  /** What it does to the ready list. */
  lemma ScheduleQueue(c: Sched)
    requires BetweenThreads(c)
    ensures SomeoneToRun(c)
    ensures var c' := Schedule(c);
      && c'.ready == (if c.ready == [] then [] else c.ready[1..])
      && c'.entered == c'.dispatched + c'.ready
  {
    if c.ready != [] {
      assert c.entered == (c.dispatched + [c.ready[0]]) + c.ready[1..];
    }
  }

  lemma FrontLeaves(s: seq<Tid>)
    requires s != [] && Distinct(s)
    ensures Distinct(s[1..]) && s == [s[0]] + s[1..] && forall t :: t in s[1..] <==> t in s && t != s[0]
  {
    assert s == [s[0]] + s[1..];
  }

  lemma EnqueueKeeps(c: Sched, t: Tid)
    requires QueueInv(c) && t in c.status && !c.status[t].Ready? && !IsIdle(c, t)
    ensures QueueInv(Enqueue(c, t)) && t in Enqueue(c, t).ready
  {
    var c' := Enqueue(c, t);
    assert t !in c.ready;
    assert forall x :: x in c'.ready <==> x in c.ready || x == t;
    assert c'.entered == c.dispatched + (c.ready + [t]);
  }

  /** thread_unblock, of any blocked thread but idle. */
  lemma UnblockKeeps(c: Sched, t: Tid)
    requires SchedInv(c) && t in c.status && c.status[t].Blocked? && !IsIdle(c, t)
    ensures SchedInv(Unblock(c, t))
  {
    EnqueueKeeps(c, t);
  }

  /** thread_block needs a thread other than the one that is to become idle. */
  lemma BlockKeeps(c: Sched)
    requires SchedInv(c) && (c.current == c.idleThread ==> c.idleKnown)
    ensures SomeoneToRun(c) && SchedInv(Block(c))
  {
    ScheduleKeeps(c.(status := c.status[c.current := Blocked]));
  }

  lemma YieldKeeps(c: Sched)
    requires SchedInv(c)
    ensures SchedInv(Yield(c))
  {
    if IsIdle(c, c.current) {
      ScheduleKeeps(c.(status := c.status[c.current := Ready]));
    } else {
      EnqueueKeeps(c, c.current);
      ScheduleKeeps(Enqueue(c, c.current));
    }
  }

  lemma ExitKeeps(c: Sched)
    requires SchedInv(c) && c.current != c.idleThread
    ensures SomeoneToRun(c) && SchedInv(Exit(c))
  {
    ScheduleKeeps(c.(status := c.status[c.current := Dying]));
  }

  lemma CreateKeeps(c: Sched, t: Tid)
    requires SchedInv(c) && t !in c.status
    ensures SchedInv(Create(c, t))
  {
  }

  lemma BecomeIdleKeeps(c: Sched)
    requires SchedInv(c) && c.current == c.idleThread
    ensures SchedInv(BecomeIdle(c))
  {
  }

  // ----- First in, first out ----------------------------------------------------------------------

  /** What a section may do to the history: append to it. */
  predicate Later(c: Sched, c': Sched) {
    && c.dispatched <= c'.dispatched
    && c.entered <= c'.entered
  }

  /** A thread at position k of the ready list is dispatched after exactly k other dispatches: it
      stays on the list, one place further on at each dispatch, and is the next after the k-th. */
  lemma DispatchedInOrder(c: Sched, c': Sched, k: nat)
    requires QueueInv(c) && QueueInv(c') && Later(c, c') && k < |c.ready|
    ensures var n := |c'.dispatched| - |c.dispatched|;
      if n <= k then k - n < |c'.ready| && c'.ready[k - n] == c.ready[k]
      else c'.dispatched[|c.dispatched| + k] == c.ready[k]
  {
    var i := |c.dispatched| + k;
    assert c.entered[i] == c.ready[k];
    assert c'.entered[i] == c.entered[i];
  }
}
