/** The kernel's sections as they are written: methods that change the thread table, the ready list,
    the semaphores and the list of sleeping threads in place. Each is proved to do what the step
    functions of the other modules say, about which the theorems on runs are. */
module KernelMonitor {
  import opened Scheduler
  import opened Semaphores
  import opened KernelRuns

  // ----- The steps in full ------------------------------------------------------------------------

  lemma EnabledIs(s: System, a: Action)
    requires Enabled(s, a)
    ensures Me(s) in s.core.pc && (a.ExitNow? ==> InCode(s))
  {
  }

  lemma DoExit(s: System)
    requires SystemInv(s) && Enabled(s, ExitNow) && SomeoneToRun(s.core.sched)
    ensures Do(s, ExitNow) == s.(core := ExitThread(s.core), slice := 0)
  {
    hide SystemInv, ExitThread, SomeoneToRun;
  }

  lemma ExitThreadIs(c: Core)
    requires SomeoneToRun(c.sched)
    ensures var b := Exit(c.sched);
      ExitThread(c) == Core(b, c.semas, if c.sched.current in b.status then c.pc else c.pc - {c.sched.current})
  {
    hide Exit, SomeoneToRun;
  }

  lemma DoFinishRelease(s: System, l: nat)
    requires SystemInv(s) && At(s, Releasing(l)) && CoreInv(s.core) && OfLock(l) in s.core.semas
    ensures Enabled(s, FinishRelease) && Do(s, FinishRelease) == Upped(s, OfLock(l), Free)
  {
    hide SystemInv, CoreInv, Upped;
  }

  lemma MayTestIs(c: Core, x: Sid)
    requires MayTest(c, x)
    ensures x in c.semas
  {
  }

  lemma TestedUnfolds(s: System, x: Sid, why: Why)
    requires CoreInv(s.core) && MayTest(s.core, x) && x in s.core.semas && SomeoneToRun(s.core.sched)
    ensures Tested(s, x, why)
         == s.(core := Test(s.core, x, why, AfterDown(why)), slice := if s.core.semas[x].value == 0 then 0 else s.slice)
  {
    hide CoreInv, MayTest, SomeoneToRun, Test;
  }

  lemma TestUnfolds(c: Core, x: Sid, why: Why, after: Pc)
    requires x in c.semas && SomeoneToRun(c.sched)
    ensures var me, sema := c.sched.current, c.semas[x];
      Test(c, x, why, after)
      == if sema.value == 0 then
           Core(Block(c.sched), c.semas[x := sema.(waiters := sema.waiters + [me])], c.pc[me := Testing(x, why)])
         else
           Core(c.sched, c.semas[x := sema.(value := sema.value - 1, downs := sema.downs + 1)], c.pc[me := after])
  {
    hide SomeoneToRun, Block;
  }

  lemma DoTick(s: System)
    requires SystemInv(s) && Enabled(s, Tick)
    ensures Do(s, Tick) == Ticked(s)
  {
    hide SystemInv, Ticked;
  }

  lemma TickedUnfolds(s: System)
    requires SystemInv(s) && CoreInv(s.core) && SleepList in s.core.semas
    requires forall x | x in s.sleepers :: Private(x.t) in s.core.semas
    requires s.core.semas[SleepList].value > 0 ==>
      WokenUp(s.(ticks := s.ticks + 1)).core.sched.current in WokenUp(s.(ticks := s.ticks + 1)).core.sched.status
    requires s.core.sched.current in s.core.sched.status
    ensures var s1 := s.(ticks := s.ticks + 1);
      var s2 := if s.core.semas[SleepList].value > 0 then WokenUp(s1) else s1;
      Ticked(s) == if s.slice + 1 < TIME_SLICE then s2.(slice := s.slice + 1)
                   else s2.(core := YieldCpu(s2.core), slice := 0)
  {
    hide SystemInv, CoreInv, WokenUp, YieldCpu;
  }

  lemma ExitIs(s: System)
    requires SystemInv(s) && Enabled(s, ExitNow)
    ensures SomeoneToRun(s.core.sched) && Me(s) == s.core.sched.current
    ensures var b := Exit(s.core.sched);
      var pc := if Me(s) in b.status then s.core.pc else s.core.pc - {Me(s)};
      Do(s, ExitNow) == System(Core(b, s.core.semas, pc), s.holder, s.sleepers, s.ticks, 0)
  {
    hide *;
    Basics(s);
    EnabledIs(s, ExitNow);
    ExitNowKeeps(s);
    DoExit(s);
    ExitThreadIs(s.core);
    MeIs(s);
  }

  lemma SetHolderIs(s: System, l: nat)
    requires SystemInv(s) && At(s, SettingHolder(l))
    ensures Enabled(s, SetHolder)
    ensures Do(s, SetHolder)
         == System(Core(s.core.sched, s.core.semas, s.core.pc[s.core.sched.current := Free]),
                   s.holder[l := s.core.sched.current], s.sleepers, s.ticks, s.slice)
  {
    hide SystemInv;
  }

  lemma ReleaseIs(s: System, l: nat)
    requires SystemInv(s) && Enabled(s, Release(l))
    ensures Do(s, Release(l))
         == System(Core(s.core.sched, s.core.semas, s.core.pc[s.core.sched.current := Releasing(l)]),
                   s.holder - {l}, s.sleepers, s.ticks, s.slice)
  {
    hide SystemInv;
  }

  lemma FinishReleaseIs(s: System, l: nat)
    requires SystemInv(s) && At(s, Releasing(l))
    ensures Enabled(s, FinishRelease) && CanUp(s.core, OfLock(l))
    ensures var c := Up(s.core, OfLock(l));
      && c.sched.current == s.core.sched.current
      && Do(s, FinishRelease) == s.(core := c.(pc := c.pc[s.core.sched.current := Free]))
  {
    hide *;
    Basics(s);
    FinishReleaseKeeps(s, l);
    UpEnabled(s.core, OfLock(l));
    CanUpIf(s.core, OfLock(l));
    UpIs(s.core, OfLock(l));
    DoFinishRelease(s, l);
    UppedIs(s, OfLock(l), Free);
    SetPcIs(Up(s.core, OfLock(l)), Free);
    MeIs(s);
  }

  lemma InsertIs(s: System, d: int)
    requires SystemInv(s) && At(s, Inserting(d))
    ensures Enabled(s, Insert)
    ensures var me := s.core.sched.current;
      Do(s, Insert)
      == System(Core(s.core.sched, s.core.semas[Private(me) := Sema(0, [], 0, 0, 0)], s.core.pc[me := Inserted(d)]),
                s.holder, InsertSleeper(s.sleepers, Sleeper(me, d)), s.ticks, s.slice)
  {
    hide SystemInv, InsertSleeper;
  }

  lemma InsertFurther(q: seq<Sleeper>, i: nat, x: Sleeper)
    requires i < |q| && x.deadline >= q[i].deadline
    ensures q[..i] + InsertSleeper(q[i..], x) == q[..i + 1] + InsertSleeper(q[i + 1..], x)
  {
    assert q[i..][1..] == q[i + 1..];
    assert q[..i] + [q[i]] == q[..i + 1];
    var rest := InsertSleeper(q[i + 1..], x);
    assert InsertSleeper(q[i..], x) == [q[i]] + rest;
    assert q[..i] + ([q[i]] + rest) == (q[..i] + [q[i]]) + rest;
  }

  lemma InsertHere(q: seq<Sleeper>, i: nat, x: Sleeper)
    requires i <= |q| && (i < |q| ==> x.deadline < q[i].deadline)
    ensures q[..i] + InsertSleeper(q[i..], x) == q[..i] + [x] + q[i..]
  {
    assert q[..i] + ([x] + q[i..]) == q[..i] + [x] + q[i..];
  }

  lemma TestedIs(s: System, x: Sid, why: Why)
    requires SystemInv(s) && MayTest(s.core, x)
    ensures CoreInv(s.core) && SomeoneToRun(s.core.sched) && x in s.core.semas
    ensures var me, sema := s.core.sched.current, s.core.semas[x];
      Tested(s, x, why)
      == if sema.value == 0 then
           s.(core := Core(Block(s.core.sched), s.core.semas[x := sema.(waiters := sema.waiters + [me])],
                           s.core.pc[me := Testing(x, why)]), slice := 0)
         else
           s.(core := Core(s.core.sched, s.core.semas[x := sema.(value := sema.value - 1, downs := sema.downs + 1)],
                           s.core.pc[me := AfterDown(why)]))
  {
    hide *;
    CoreOfSystem(s);
    TestKeeps(s.core, x, why, AfterDown(why));
    MayTestIs(s.core, x);
    TestedUnfolds(s, x, why);
    TestUnfolds(s.core, x, why, AfterDown(why));
  }

  lemma CoreOfSystem(s: System)
    requires SystemInv(s)
    ensures CoreInv(s.core)
  {
  }

  lemma TickIs(s: System)
    requires SystemInv(s) && Enabled(s, Tick)
    ensures CoreInv(s.core) && SleepList in s.core.semas && forall x | x in s.sleepers :: Private(x.t) in s.core.semas
    ensures var s1 := s.(ticks := s.ticks + 1);
      var s2 := if s.core.semas[SleepList].value > 0 then WokenUp(s1) else s1;
      && s2.core.sched.current in s2.core.sched.status && s2.slice == s.slice
      && Do(s, Tick) == if s.slice + 1 < TIME_SLICE then s2.(slice := s.slice + 1)
                        else s2.(core := YieldCpu(s2.core), slice := 0)
  {
    hide *;
    CoreOfSystem(s);
    LocksExist(s);
    SleepersHaveSemas(s);
    Basics(s);
    DoTick(s);
    if s.core.semas[SleepList].value > 0 {
      WokenUpKeeps(s);
      Basics(WokenUp(s.(ticks := s.ticks + 1)));
      MeIs(WokenUp(s.(ticks := s.ticks + 1)));
    }
    MeIs(s);
    TickedUnfolds(s);
  }

  lemma KnownOnly(known: bool, ready: seq<Tid>)
    ensures forall b: Sched :: b.idleKnown == known && b.ready == ready ==> (SomeoneToRun(b) <==> ready != [] || known)
  {
  }

  lemma CanUpIf(c: Core, x: Sid)
    requires x in c.semas && (c.semas[x].waiters != [] ==> IsBlocked(c.sched, c.semas[x].waiters[0]))
    ensures CanUp(c, x)
  {
  }

  class Kernel {
    // thread.c
    var status: map<Tid, Status>
    var readyList: seq<Tid>
    var current: Tid
    var idleKnown: bool
    const idleThread: Tid
    var threadTicks: nat
    // synch.c
    var semas: map<Sid, Sema>
    var holder: map<nat, Tid>
    // timer.c
    var ticks: int
    var sleepers: seq<Sleeper>
    // Where each thread's program counter is, and the history of the ready list.
    ghost var pc: map<Tid, Pc>
    ghost var entered: seq<Tid>
    ghost var dispatched: seq<Tid>

    ghost function Threads(): Sched
      reads this
    {
      Sched(status, readyList, current, idleKnown, idleThread, entered, dispatched)
    }

    ghost function Parts(): Core
      reads this
    {
      Core(Threads(), semas, pc)
    }

    ghost function State(): System
      reads this
    {
      System(Parts(), holder, sleepers, ticks, threadTicks)
    }

    /** The kernel when thread_start turns interrupts on. */
    constructor (idle: Tid)
      requires idle != INITIAL
      ensures Threads() == Sched(map[INITIAL := Running, idle := Ready], [idle], INITIAL, false, idle, [idle], [])
      ensures State() == System(Core(Threads(), map[SleepList := Sema(1, [], 1, 0, 0)],
                                     map[INITIAL := Free, idle := IdleStart]), map[], [], 0, 0)
    {
      status := map[INITIAL := Running, idle := Ready];
      readyList, current, idleKnown, idleThread, threadTicks := [idle], INITIAL, false, idle, 0;
      semas, holder := map[SleepList := Sema(1, [], 1, 0, 0)], map[];
      ticks, sleepers := 0, [];
      pc, entered, dispatched := map[INITIAL := Free, idle := IdleStart], [idle], [];
    }

    // ----- thread.c -------------------------------------------------------------------------------

    /** thread_unblock. */
    method ThreadUnblock(t: Tid)
      requires IsBlocked(Threads(), t)
      modifies this`status, this`readyList, this`entered
      ensures Threads() == Unblock(old(Threads()), t)
    {
      readyList := readyList + [t];
      entered := entered + [t];
      status := status[t := Ready];
    }

    /** next_thread_to_run. */
    method NextThreadToRun() returns (next: Tid)
      requires SomeoneToRun(Threads())
      modifies this`readyList, this`dispatched
      ensures next == if old(readyList) == [] then idleThread else old(readyList)[0]
      ensures readyList == if old(readyList) == [] then [] else old(readyList)[1..]
      ensures dispatched == if old(readyList) == [] then old(dispatched) else old(dispatched) + [next]
    {
      if readyList == [] {
        next := idleThread;
      } else {
        next := readyList[0];
        readyList := readyList[1..];
        dispatched := dispatched + [next];
      }
    }

    /** schedule and thread_schedule_tail. */
    method Reschedule()
      requires SomeoneToRun(Threads()) && current in status && !status[current].Running?
      modifies this`readyList, this`dispatched, this`current, this`status, this`threadTicks
      ensures Threads() == Schedule(old(Threads())) && threadTicks == 0
    {
      var cur := current;
      var next := NextThreadToRun();
      var dying := cur != next && status[cur].Dying? && cur != INITIAL;
      current := next;
      status := status[next := Running];
      threadTicks := 0;
      if dying {
        status := status - {cur};
      }
    }

    /** thread_block. */
    method ThreadBlock()
      requires SomeoneToRun(Threads())
      modifies this`readyList, this`dispatched, this`current, this`status, this`threadTicks
      ensures Threads() == Block(old(Threads())) && threadTicks == 0
    {
      status := status[current := Blocked];
      Reschedule();
    }

    /** thread_yield. */
    method ThreadYield()
      requires current in status
      modifies this`readyList, this`dispatched, this`current, this`status, this`threadTicks, this`entered
      ensures Threads() == Yield(old(Threads())) && threadTicks == 0
    {
      if !(idleKnown && current == idleThread) {
        readyList := readyList + [current];
        entered := entered + [current];
      }
      status := status[current := Ready];
      Reschedule();
    }

    /** thread_exit; the thread is gone when this returns to the next one. */
    method ThreadExit()
      requires SystemInv(State()) && Enabled(State(), ExitNow)
      modifies this`readyList, this`dispatched, this`current, this`status, this`threadTicks, this`pc
      ensures State() == Do(old(State()), ExitNow)
    {
      hide SystemInv, Enabled, Do, Schedule, SomeoneToRun;
      ghost var me := current;
      ExitIs(State());
      status := status[current := Dying];
      KnownOnly(idleKnown, readyList);
      Reschedule();
      pc := if me in status then pc else pc - {me};
    }

    // ----- synch.c --------------------------------------------------------------------------------

    /** sema_up. */
    method SemaUp(s: Sid)
      requires CanUp(Parts(), s)
      modifies this`status, this`readyList, this`entered, this`semas
      ensures Parts() == Up(old(Parts()), s)
    {
      var sema := semas[s];
      if sema.waiters != [] {
        semas := semas[s := sema.(waiters := sema.waiters[1..])];
        ThreadUnblock(sema.waiters[0]);
      }
      semas := semas[s := semas[s].(value := semas[s].value + 1, ups := semas[s].ups + 1)];
    }

    /** sema_try_down. */
    method SemaTryDown(s: Sid) returns (success: bool)
      requires s in semas
      modifies this`semas
      ensures success <==> old(semas)[s].value > 0
      ensures Parts() == if success then TryDown(old(Parts()), s) else old(Parts())
    {
      success := semas[s].value > 0;
      if success {
        semas := semas[s := semas[s].(value := semas[s].value - 1, downs := semas[s].downs + 1)];
      }
    }

    /** The loop of sema_down up to the next switch: the thread decrements the value and goes on, or
        it joins the wait list and blocks. */
    method SemaDownRound(s: Sid, ghost why: Why) returns (done: bool)
      requires SystemInv(State()) && MayTest(Parts(), s)
      modifies this`readyList, this`dispatched, this`current, this`status, this`threadTicks, this`semas, this`pc
      ensures CoreInv(old(Parts())) && State() == Tested(old(State()), s, why)
      ensures done <==> old(semas)[s].value > 0
    {
      hide SystemInv, CoreInv, MayTest, Tested, Block, AfterDown;
      ghost var me := current;
      TestedIs(State(), s, why);
      done := semas[s].value > 0;
      if !done {
        semas := semas[s := semas[s].(waiters := semas[s].waiters + [current])];
        ThreadBlock();
        pc := pc[me := Testing(s, why)];
      } else {
        semas := semas[s := semas[s].(value := semas[s].value - 1, downs := semas[s].downs + 1)];
        pc := pc[me := AfterDown(why)];
      }
    }

    /** The end of lock_acquire, after its sema_down. */
    method LockSetHolder(l: nat)
      requires SystemInv(State()) && At(State(), SettingHolder(l))
      modifies this`holder, this`pc
      ensures Enabled(old(State()), SetHolder) && State() == Do(old(State()), SetHolder)
    {
      hide SystemInv, At, Enabled, Do;
      SetHolderIs(State(), l);
      holder := holder[l := current];
      pc := pc[current := Free];
    }

    /** lock_release, up to its sema_up, and the sema_up. */
    method LockRelease(l: nat)
      requires SystemInv(State()) && Enabled(State(), Release(l))
      modifies this`holder, this`pc
      ensures State() == Do(old(State()), Release(l))
    {
      hide SystemInv, Enabled, Do;
      ReleaseIs(State(), l);
      holder := holder - {l};
      pc := pc[current := Releasing(l)];
    }

    method LockFinishRelease(l: nat)
      requires SystemInv(State()) && At(State(), Releasing(l))
      modifies this`status, this`readyList, this`entered, this`semas, this`pc
      ensures Enabled(old(State()), FinishRelease) && State() == Do(old(State()), FinishRelease)
    {
      hide SystemInv, At, Enabled, Do, CanUp, Up;
      FinishReleaseIs(State(), l);
      SemaUp(OfLock(l));
      pc := pc[current := Free];
    }

    // ----- timer.c --------------------------------------------------------------------------------

    /** The part of timer_sleep that is guarded by the list's semaphore: sema_init of the sleeper's
        own semaphore, and list_insert_ordered. */
    method LinkSleeper(d: int)
      requires SystemInv(State()) && At(State(), Inserting(d))
      modifies this`semas, this`sleepers, this`pc
      ensures Enabled(old(State()), Insert) && State() == Do(old(State()), Insert)
    {
      hide SystemInv, At, Enabled, Do;
      InsertIs(State(), d);
      var x := Sleeper(current, d);
      semas := semas[Private(current) := Sema(0, [], 0, 0, 0)];
      var i := 0;
      while i < |sleepers| && !(x.deadline < sleepers[i].deadline)
        invariant semas == old(semas)[Private(current) := Sema(0, [], 0, 0, 0)] && pc == old(pc) && sleepers == old(sleepers)
        invariant i <= |sleepers|
        invariant InsertSleeper(sleepers, x) == sleepers[..i] + InsertSleeper(sleepers[i..], x)
      {
        InsertFurther(sleepers, i, x);
        i := i + 1;
      }
      InsertHere(sleepers, i, x);
      sleepers := sleepers[..i] + [x] + sleepers[i..];
      pc := pc[current := Inserted(d)];
    }

    /** try_to_wake_up_threads. */
    method TryToWakeUpThreads()
      requires CoreInv(Parts()) && SleepList in semas && forall x | x in sleepers :: Private(x.t) in semas
      modifies this`status, this`readyList, this`entered, this`semas, this`sleepers
      ensures State() == if old(semas)[SleepList].value > 0 then WokenUp(old(State())) else old(State())
    {
      hide CoreInv, WokenUp, Up, CanUp, TryDown;
      if semas[SleepList].value > 0 {
        WokenUpIs(State());
      }
      var free := SemaTryDown(SleepList);
      if free {
        while sleepers != []
          invariant holder == old(holder) && ticks == old(ticks) && current == old(current) && threadTicks == old(threadTicks)
          invariant CanWake(Parts(), sleepers, ticks)
          invariant WakeExpired(Parts(), sleepers, ticks) == old(WakeExpired(TryDown(Parts(), SleepList), sleepers, ticks))
          decreases |sleepers|
        {
          if sleepers[0].deadline <= ticks {
            SemaUp(Private(sleepers[0].t));
            sleepers := sleepers[1..];
          } else {
            break;
          }
        }
        CanUpIf(Parts(), SleepList);
        SemaUp(SleepList);
      }
    }

    /** timer_interrupt and thread_tick, with the yield on return from the interrupt. */
    method TimerInterrupt()
      requires SystemInv(State()) && Enabled(State(), Tick)
      modifies this`ticks, this`status, this`readyList, this`entered, this`semas, this`sleepers
      modifies this`dispatched, this`current, this`threadTicks
      ensures State() == Do(old(State()), Tick)
    {
      hide SystemInv, CoreInv, Enabled, Do, WokenUp, Yield;
      TickIs(State());
      ticks := ticks + 1;
      TryToWakeUpThreads();
      threadTicks := threadTicks + 1;
      if threadTicks >= TIME_SLICE {
        ThreadYield();
      }
    }
  }
}
