/** What the threads can count on in every run: a ready thread gets the processor in bounded time, semaphores
    wake their waiters in order, a lock changes hands only when it is taken or released, and a sleeper whose
    time has come can go on. */
module Progress {
  import opened Scheduler
  import opened Semaphores
  import opened KernelRuns
  import opened RunTheorems
  import opened StepLaws
  import opened Wrappers

  // ----- Runs can go on ---------------------------------------------------------------------------

  /** The step of its own that the running thread can take next. */
  function OwnStep(s: System): Action
    requires Me(s) in s.core.pc
  {
    match s.core.pc[Me(s)]
    case Free => YieldNow
    case Testing(_, _) => Resume
    case Born => YieldNow
    case Creating(_) => Launch
    case IdleStart => BecomeIdleThread
    case IdleLoop => IdleWait
    case SettingHolder(_) => SetHolder
    case Releasing(_) => FinishRelease
    case Starting(_) => SleepDown
    case Inserting(_) => Insert
    case Inserted(_) => FinishInsert
    case AboutToWait(_) => SleepWait
  }

  /** In every reachable state the running thread can go on, and unless it is inside sema_down a timer
      interrupt may come. */
  lemma KernelGoesOn(s: System)
    requires SystemInv(s)
    ensures Me(s) in s.core.pc && Enabled(s, OwnStep(s)) && (!s.core.pc[Me(s)].Testing? ==> Enabled(s, Tick))
  {
    hide *;
    Basics(s);
    NotBorn(s);
    OwnStepIs(s);
  }

  lemma NotBorn(s: System)
    requires SystemInv(s)
    ensures Me(s) in s.core.pc && !s.core.pc[Me(s)].Born?
  {
    CurrentRuns(s.core);
  }

  lemma OwnStepIs(s: System)
    requires Me(s) in s.core.pc && !s.core.pc[Me(s)].Born?
    ensures Enabled(s, OwnStep(s)) && (!s.core.pc[Me(s)].Testing? ==> Enabled(s, Tick))
  {
  }

  // ----- The processor ----------------------------------------------------------------------------

  /** While somebody is ready, a time slice is at most as long as it should be: ticks are paid for by
      dispatches. */
  lemma SliceStep(s: System, a: Action)
    requires SystemInv(s) && Enabled(s, a) && s.core.sched.ready != []
    ensures var s' := Do(s, a);
      TIME_SLICE * |s'.core.sched.dispatched| + s'.slice + s.ticks >= TIME_SLICE * |s.core.sched.dispatched| + s.slice + s'.ticks
  {
    hide SystemInv, Do, Enabled, Joins, Switches;
    Basics(s);
    StepSchedules(s, a);
    TimePasses(s, a);
    TickEnds(s, a);
  }

  lemma TickEnds(s: System, a: Action)
    requires Me(s) in s.core.pc
    ensures a.Tick? ==> (Switches(s, a) <==> s.slice + 1 >= TIME_SLICE)
  {
  }

  lemma {:induction false} TicksArePaid(run: seq<Action>, k: nat, i: nat)
    requires k <= |run| && After(run).Some?
    requires After(run[..k]).Some? && i < |After(run[..k]).value.core.sched.ready|
    requires |After(run).value.core.sched.dispatched| <= |After(run[..k]).value.core.sched.dispatched| + i
    ensures var (s, s') := (After(run[..k]).value, After(run).value);
      TIME_SLICE * |s'.core.sched.dispatched| + s'.slice + s.ticks >= TIME_SLICE * |s.core.sched.dispatched| + s.slice + s'.ticks
    decreases |run|
  {
    hide *;
    if k == |run| {
      assert run[..k] == run;
    } else {
      var before := run[..|run| - 1];
      assert before[..k] == run[..k];
      LastStep(run);
      StepFrame(After(before).value, run[|run| - 1]);
      FrameLater(After(before).value.core, After(run).value.core);
      NoFewer(After(before).value.core.sched, After(run).value.core.sched);
      TicksArePaid(before, k, i);
      ReadyThreadsRunInTurn(before, k, i);
      SliceStep(After(before).value, run[|run| - 1]);
    }
  }

  lemma NoFewer(b: Sched, b': Sched)
    requires Later(b, b')
    ensures |b.dispatched| <= |b'.dispatched|
  {
  }

  /** The scheduler is fair: in every run a thread at position i of the ready list gets the processor before
      i + 1 time slices of timer ticks are over, whatever the other threads do. */
  lemma ReadyThreadsRunSoon(run: seq<Action>, k: nat, i: nat)
    requires k <= |run| && After(run).Some?
    requires After(run[..k]).Some? && i < |After(run[..k]).value.core.sched.ready|
    requires After(run).value.ticks >= After(run[..k]).value.ticks + TIME_SLICE * (i + 1)
    ensures var (b, b') := (After(run[..k]).value.core.sched, After(run).value.core.sched);
      |b.dispatched| + i < |b'.dispatched| && b'.dispatched[|b.dispatched| + i] == b.ready[i]
  {
    hide *;
    var (b, b') := (After(run[..k]).value.core.sched, After(run).value.core.sched);
    Basics(After(run).value);
    ReadyThreadsRunInTurn(run, k, i);
    if |b'.dispatched| <= |b.dispatched| + i {
      TicksArePaid(run, k, i);
    }
  }

  // ----- Semaphores -------------------------------------------------------------------------------

  /** n ups have taken the first n waiters off the list, and others have joined at the back. */
  predicate Drained(w: seq<Tid>, w': seq<Tid>, n: nat) {
    n <= |w| ==> w[n..] <= w'
  }

  lemma DrainedThen(w: seq<Tid>, w1: seq<Tid>, w2: seq<Tid>, n: nat, ups: bool, more: seq<Tid>)
    requires Drained(w, w1, n) && w2 == (if ups then RestOf(w1) else w1) + more
    ensures Drained(w, w2, n + One(ups))
  {
    if n + One(ups) <= |w| {
      assert w1 == w[n..] + w1[|w| - n..];
      if ups {
        assert w[n..][1..] == w[n + 1..];
        assert w1[1..] == w[n + 1..] + w1[|w| - n..];
      }
    }
  }

  lemma SemaOf(s: System, a: Action, x: Sid)
    requires SystemInv(s) && Enabled(s, a) && x in s.core.semas && !x.Private?
    ensures x in Do(s, a).core.semas && Me(s) in s.core.pc
    ensures var (sema, sema') := (s.core.semas[x], Do(s, a).core.semas[x]);
      && sema'.ups == sema.ups + One(Ups(s, a, x))
      && sema'.waiters == (if Ups(s, a, x) then RestOf(sema.waiters) else sema.waiters) + Waits(s, a, x)
  {
    hide SystemInv, Do, Enabled, Ups, Downs, Waits;
    StepSemas(s, a, x);
  }

  lemma {:induction false} WaitersDrain(run: seq<Action>, k: nat, x: Sid)
    requires k <= |run| && After(run).Some? && !x.Private?
    requires After(run[..k]).Some? && x in After(run[..k]).value.core.semas
    ensures x in After(run).value.core.semas
    ensures var (sema, sema') := (After(run[..k]).value.core.semas[x], After(run).value.core.semas[x]);
      sema.ups <= sema'.ups && Drained(sema.waiters, sema'.waiters, sema'.ups - sema.ups)
    decreases |run|
  {
    hide *;
    if k == |run| {
      assert run[..k] == run;
      NothingDrained(After(run).value.core.semas[x].waiters);
    } else {
      var (before, a) := (run[..|run| - 1], run[|run| - 1]);
      assert before[..k] == run[..k];
      LastStep(run);
      WaitersDrain(before, k, x);
      var s := After(before).value;
      SemaOf(s, a, x);
      var sema := After(run[..k]).value.core.semas[x];
      DrainedThen(sema.waiters, s.core.semas[x].waiters, After(run).value.core.semas[x].waiters,
                  s.core.semas[x].ups - sema.ups, Ups(s, a, x), Waits(s, a, x));
    }
  }

  lemma NothingDrained(w: seq<Tid>)
    ensures Drained(w, w, 0)
  {
    assert w[0..] == w;
  }

  /** Semaphores are first in, first out: in every run a thread at position i of a wait list waits, one place
      further on for each sema_up, until the one after i others, which puts it on the ready list. */
  lemma WaitersWakeInTurn(run: seq<Action>, k: nat, x: Sid, i: nat)
    requires k <= |run| && After(run).Some? && !x.Private?
    requires After(run[..k]).Some? && x in After(run[..k]).value.core.semas && i < |After(run[..k]).value.core.semas[x].waiters|
    ensures x in After(run).value.core.semas
    ensures var (sema, sema') := (After(run[..k]).value.core.semas[x], After(run).value.core.semas[x]);
      var n := sema'.ups - sema.ups;
      n >= 0 && (n <= i ==> i - n < |sema'.waiters| && sema'.waiters[i - n] == sema.waiters[i])
  {
    hide *;
    WaitersDrain(run, k, x);
    DrainedAt(After(run[..k]).value.core.semas[x].waiters, After(run).value.core.semas[x].waiters,
              After(run).value.core.semas[x].ups - After(run[..k]).value.core.semas[x].ups, i);
  }

  lemma DrainedAt(w: seq<Tid>, w': seq<Tid>, n: nat, i: nat)
    requires Drained(w, w', n) && i < |w|
    ensures n <= i ==> i - n < |w'| && w'[i - n] == w[i]
  {
    if n <= i {
      assert w[n..][i - n] == w[i];
    }
  }

  /** sema_up puts the first waiter on the ready list, and leaves no other thread of the list there. */
  lemma UpReadies(s: System, a: Action, x: Sid)
    requires SystemInv(s) && Enabled(s, a) && x in s.core.semas && s.core.semas[x].waiters != [] && Raised(s, a) == Some(x)
    ensures var b := Do(s, a).core.sched;
      b.current == s.core.sched.current && b.ready == s.core.sched.ready + [s.core.semas[x].waiters[0]]
  {
    hide SystemInv, Do, Enabled;
    StepSchedules(s, a);
  }

  // ----- Locks ------------------------------------------------------------------------------------

  /** lock_acquire or lock_try_acquire, of a lock with nobody inside. */
  ghost predicate Enters(s: System, a: Action, l: nat)
    requires Me(s) in s.core.pc
  {
    (Aim(s, a) == Some(OfLock(l)) || Tries(a) == Some(OfLock(l))) && Inside(s, l) == {}
  }

  /** The sema_up of lock_release. */
  predicate Leaves(s: System, a: Action, l: nat)
    requires Me(s) in s.core.pc
  {
    Raised(s, a) == Some(OfLock(l))
  }

  lemma InsideCount(s: System, l: nat)
    requires SystemInv(s) && OfLock(l) in s.core.semas
    ensures |Inside(s, l)| == 1 - s.core.semas[OfLock(l)].value
    ensures forall t, u | t in Inside(s, l) && u in Inside(s, l) :: t == u
  {
    MutexOf(s);
    var c := Critical(s.core.pc, OfLock(l));
    hide SystemInv;
    assert s.core.semas[OfLock(l)].value + |c| + Held(s.holder, OfLock(l)) == 1;
    if l in s.holder {
      assert c == {};
    } else {
      assert Inside(s, l) == c;
    }
    OneInside(Inside(s, l));
  }

  lemma OneInside(t: set<Tid>)
    requires |t| <= 1
    ensures forall x, y | x in t && y in t :: x == y
  {
    forall x, y | x in t && y in t
      ensures x == y
    {
      if x != y {
        TwoElements(t, x, y);
      }
    }
  }

  lemma TwoElements(t: set<Tid>, x: Tid, y: Tid)
    requires x in t && y in t && x != y
    ensures |t| >= 2
  {
    assert t == t - {x, y} + {x, y};
    assert |{x, y}| == 2;
  }

  lemma LockValue(s: System, a: Action, l: nat)
    requires SystemInv(s) && Enabled(s, a) && OfLock(l) in s.core.semas
    ensures Me(s) in s.core.pc && OfLock(l) in Do(s, a).core.semas
    ensures Do(s, a).core.semas[OfLock(l)].value
         == s.core.semas[OfLock(l)].value + One(Leaves(s, a, l)) - One(Enters(s, a, l))
  {
    hide SystemInv, Do, Enabled, Aim, Raised, Tries, Inside;
    StepSemas(s, a, OfLock(l));
    InsideCount(s, l);
  }

  lemma EnteredIsInside(s: System, a: Action, l: nat)
    requires SystemInv(s) && Enabled(s, a) && OfLock(l) in s.core.semas && Me(s) in s.core.pc && Enters(s, a, l)
    ensures Me(s) in Inside(Do(s, a), l)
  {
    hide *;
    InsideCount(s, l);
    StepSchedules(s, a);
    MyWhy(s);
    EnteringGoes(s, a, l);
    InsideHas(Do(s, a), l, Me(s));
  }

  lemma EnteringGoes(s: System, a: Action, l: nat)
    requires Me(s) in s.core.pc && OfLock(l) in s.core.semas && Enters(s, a, l)
    requires WhyOk(Me(s), s.core.pc[Me(s)], s.core.semas) && (Inside(s, l) == {} ==> s.core.semas[OfLock(l)].value > 0)
    ensures Me(s) in Places(s, a) && Places(s, a)[Me(s)] == SettingHolder(l)
  {
    hide Inside;
  }

  lemma InsideHas(s: System, l: nat, u: Tid)
    ensures u in Inside(s, l) <==>
      (u in s.core.pc && (s.core.pc[u] == SettingHolder(l) || s.core.pc[u] == Releasing(l))) || (l in s.holder && s.holder[l] == u)
  {
  }

  /** A thread inside a lock stays inside when another one takes a step, and when it takes any other step than
      the sema_up of lock_release. */
  lemma InsideStays(s: System, a: Action, l: nat, u: Tid)
    requires SystemInv(s) && Enabled(s, a) && OfLock(l) in s.core.semas && u in Inside(s, l)
    requires Me(s) in s.core.pc && !Leaves(s, a, l)
    ensures u in Inside(Do(s, a), l)
  {
    hide *;
    Basics(s);
    StepSchedules(s, a);
    StepHolders(s, a);
    InsideHas(s, l, u);
    InsideHas(Do(s, a), l, u);
    if l in s.holder && s.holder[l] == u {
      HolderStays(s, a, l);
    } else if u == Me(s) {
      MineStays(s, a, l);
    } else {
      OthersPlace(s, a, u);
    }
  }

  lemma HolderStays(s: System, a: Action, l: nat)
    requires SystemInv(s) && Enabled(s, a) && Me(s) in s.core.pc && l in s.holder
    ensures (l in Holders(s, a) && Holders(s, a)[l] == s.holder[l])
         || (s.holder[l] == Me(s) && Me(s) in Places(s, a) && Places(s, a)[Me(s)] == Releasing(l))
  {
    hide *;
    EnabledSets(s, a);
    if a.SetHolder? {
      SetHolderKeeps(s);
    }
    HoldersAre(s, a, l);
  }

  lemma EnabledSets(s: System, a: Action)
    requires Enabled(s, a)
    ensures Me(s) in s.core.pc && (a.SetHolder? ==> s.core.pc[Me(s)].SettingHolder?)
  {
  }

  lemma HoldersAre(s: System, a: Action, l: nat)
    requires Enabled(s, a) && Me(s) in s.core.pc && l in s.holder && (a.SetHolder? ==> s.core.pc[Me(s)].l !in s.holder)
    ensures (l in Holders(s, a) && Holders(s, a)[l] == s.holder[l])
         || (s.holder[l] == Me(s) && Me(s) in Places(s, a) && Places(s, a)[Me(s)] == Releasing(l))
  {
  }

  lemma MineStays(s: System, a: Action, l: nat)
    requires Me(s) in s.core.pc && Enabled(s, a) && !Leaves(s, a, l)
    requires s.core.pc[Me(s)] == SettingHolder(l) || s.core.pc[Me(s)] == Releasing(l)
    ensures (Me(s) in Places(s, a) && Places(s, a)[Me(s)] == s.core.pc[Me(s)])
         || (l in Holders(s, a) && Holders(s, a)[l] == Me(s))
  {
  }

  lemma OthersPlace(s: System, a: Action, u: Tid)
    requires SystemInv(s) && Enabled(s, a) && Me(s) in s.core.pc && u != Me(s) && u in s.core.pc && !s.core.pc[u].Born?
    ensures u in Places(s, a) && Places(s, a)[u] == s.core.pc[u]
  {
    hide *;
    Basics(s);
    EnabledThreads(s, a);
    if a.Launch? {
      ChildElsewhere(s.core);
    } else if a.Spawn? {
      NotYet(s.core, a.t);
    }
    OtherPlaceIs(s, a, u);
  }

  lemma EnabledThreads(s: System, a: Action)
    requires Enabled(s, a)
    ensures Me(s) in s.core.pc && (a.Launch? ==> s.core.pc[Me(s)].Creating?) && (a.Spawn? ==> a.t !in s.core.sched.status)
  {
  }

  lemma OtherPlaceIs(s: System, a: Action, u: Tid)
    requires Me(s) in s.core.pc && u != Me(s) && u in s.core.pc && !s.core.pc[u].Born? && (a.Spawn? ==> a.t !in s.core.pc)
    requires a.Launch? && s.core.pc[Me(s)].Creating? ==> var t := s.core.pc[Me(s)].child; t in s.core.pc && s.core.pc[t].Born?
    ensures u in Places(s, a) && Places(s, a)[u] == s.core.pc[u]
  {
    hide Goes;
  }

  lemma TheOne(t: set<Tid>, x: Tid)
    requires x in t && |t| <= 1
    ensures t == {x}
  {
    OneInside(t);
  }

  /** A lock changes hands only by being taken, when nobody is inside, and released: lock_try_acquire and
      lock_acquire succeed exactly then, the thread is inside from that step on, alone, and stays so
      through all steps of all threads up to its sema_up in lock_release. */
  lemma LockSteps(s: System, a: Action, l: nat)
    requires SystemInv(s) && Enabled(s, a) && OfLock(l) in s.core.semas
    ensures Me(s) in s.core.pc
    ensures Inside(Do(s, a), l) == if Enters(s, a, l) then {Me(s)} else if Leaves(s, a, l) then {} else Inside(s, l)
  {
    hide SystemInv, Do, Enabled, Inside, Leaves;
    LockValue(s, a, l);
    StepKeeps(s, a);
    InsideCount(s, l);
    InsideCount(Do(s, a), l);
    if Enters(s, a, l) {
      EnteredIsInside(s, a, l);
      TheOne(Inside(Do(s, a), l), Me(s));
    } else if !Leaves(s, a, l) && Inside(s, l) != {} {
      var u :| u in Inside(s, l);
      InsideStays(s, a, l, u);
      TheOne(Inside(s, l), u);
      TheOne(Inside(Do(s, a), l), u);
    }
  }

  // ----- Sleepers ---------------------------------------------------------------------------------

  /** In every reachable state a thread in timer_sleep that has been taken off the list has reached its
      deadline, finds the value 1 in its semaphore, and is not blocked: it is ready or runs. */
  lemma WokenCanGoOn(s: System, t: Tid, d: int)
    requires SystemInv(s) && ListedIn(s.core.pc, t, d) && Sleeper(t, d) !in s.sleepers
    ensures s.ticks >= d && Value(s.core, Private(t)) == 1 && !IsBlocked(s.core.sched, t)
    ensures t == Me(s) || t in s.core.sched.ready
  {
    PartsOf(s);
    CoreOf(s);
    SleeperPlace(s.core, t, d);
    hide SystemInv, SchedInv, PlaceInv;
    OwnWaiters(s.core, t, d);
    CountOf(s.core, Private(t));
    if IsBlocked(s.core.sched, t) {
      NobodyElse(s.core, t);
    }
  }

  lemma SleeperPlace(c: Core, t: Tid, d: int)
    requires CoreInv(c) && ListedIn(c.pc, t, d)
    ensures t in c.sched.status && t != c.sched.idleThread
    ensures IsBlocked(c.sched, t) || t == Cur(c) || t in c.sched.ready || c.sched.status[t].Dying?
    ensures !c.sched.status[t].Dying?
  {
  }

  lemma NobodyElse(c: Core, t: Tid)
    requires WhyInv(c.pc, c.semas) && IsBlocked(c.sched, t)
    ensures Woken(c.sched, c.pc, Private(t)) == {}
  {
  }

  /** After a timer interrupt that finds the list's semaphore free every thread in timer_sleep whose deadline
      has come, and that had put itself on the list, is ready or runs. */
  lemma TickWakesAll(s: System)
    requires SystemInv(s) && Enabled(s, Tick) && s.core.semas[SleepList].value > 0
    ensures var s' := Do(s, Tick);
      forall t, d | ListedIn(s'.core.pc, t, d) && d <= s'.ticks ::
        !IsBlocked(s'.core.sched, t) && (t == Me(s') || t in s'.core.sched.ready)
  {
    hide SystemInv, Do, Enabled, ListedIn;
    StepKeeps(s, Tick);
    TickWakesAllExpired(s);
    var s' := Do(s, Tick);
    forall t, d | ListedIn(s'.core.pc, t, d) && d <= s'.ticks
      ensures !IsBlocked(s'.core.sched, t) && (t == Me(s') || t in s'.core.sched.ready)
    {
      WokenCanGoOn(s', t, d);
    }
  }

  /** When it runs, the next step of its own takes it out of timer_sleep. */
  lemma WokenReturns(s: System, d: int)
    requires SystemInv(s) && ListedIn(s.core.pc, Me(s), d) && Sleeper(Me(s), d) !in s.sleepers
    requires !s.core.pc[Me(s)].Inserted?
    ensures Enabled(s, OwnStep(s))
    ensures Me(s) in Do(s, OwnStep(s)).core.pc && Do(s, OwnStep(s)).core.pc[Me(s)] == Free
  {
    hide *;
    Basics(s);
    KernelGoesOn(s);
    WokenCanGoOn(s, Me(s), d);
    MyWhy(s);
    StepSchedules(s, OwnStep(s));
    ReturningGoes(s, d);
  }

  lemma ReturningGoes(s: System, d: int)
    requires ListedIn(s.core.pc, Me(s), d) && !s.core.pc[Me(s)].Inserted? && Value(s.core, Private(Me(s))) == 1
    requires WhyOk(Me(s), s.core.pc[Me(s)], s.core.semas)
    ensures Me(s) in Places(s, OwnStep(s)) && Places(s, OwnStep(s))[Me(s)] == Free
  {
  }

  // ----- The list of sleepers ---------------------------------------------------------------------

  lemma {:induction false} WakeLeaves(c: Core, q: seq<Sleeper>, ticks: int)
    requires CanWake(c, q, ticks)
    ensures forall x :: x in q && x.deadline > ticks ==> x in WakeExpired(c, q, ticks).1
    ensures forall x :: x in WakeExpired(c, q, ticks).1 ==> x in q
    decreases |q|
  {
    if q != [] && q[0].deadline <= ticks {
      assert forall x :: x in q <==> x == q[0] || x in q[1..];
      WakeLeaves(Up(c, Private(q[0].t)), q[1..], ticks);
    }
  }

  /** The list of sleepers changes by a thread that links itself in, and by the wake-up loop, which takes off
      exactly those whose time has come. */
  lemma StepSleepers(s: System, a: Action, x: Sleeper)
    requires SystemInv(s) && Enabled(s, a)
    ensures SleepList in s.core.semas && Me(s) in s.core.pc
    ensures x in Do(s, a).sleepers <==>
      (a.Insert? && x.t == Me(s) && s.core.pc[Me(s)] == Inserting(x.deadline))
      || (x in s.sleepers && (a.Tick? && s.core.semas[SleepList].value > 0 ==> x.deadline > s.ticks + 1))
  {
    hide SystemInv, CoreInv, Do, Enabled, WokenUp, Tested, Up;
    Basics(s);
    LocksExist(s);
    if Aim(s, a).Some? {
      DoTests(s, a);
      TestedParts(s, Aim(s, a).value, Reason(s, a));
    } else if Raised(s, a).Some? {
      DoUps(s, a);
    } else if a.Tick? {
      TickSleepers(s, x);
    } else if a.Insert? {
      InsertSleepers(s, a, x);
    } else {
      SleepersStay(s, a);
    }
  }

  lemma SleepersStay(s: System, a: Action)
    requires SystemInv(s) && Enabled(s, a) && Me(s) in s.core.pc
    requires Aim(s, a).None? && Raised(s, a).None? && !a.Tick? && !a.Insert?
    ensures Do(s, a).sleepers == s.sleepers
  {
    hide SystemInv, CoreInv, Tested, Upped, YieldCpu, ExitThread, CreateThread, LaunchThread, IdleBegins, IdleBlocks, MayTest, SetPc;
  }

  lemma InsertSleepers(s: System, a: Action, x: Sleeper)
    requires SystemInv(s) && Enabled(s, a) && a.Insert? && Me(s) in s.core.pc
    ensures x in Do(s, a).sleepers <==> x in s.sleepers || (x.t == Me(s) && s.core.pc[Me(s)] == Inserting(x.deadline))
  {
    hide *;
    PartsOf(s);
    NotYetListed(s, a);
    InsertSleeperKeeps(s.sleepers, Sleeper(Me(s), s.core.pc[Me(s)].deadline));
    InsertedList(s, a);
  }

  lemma NotYetListed(s: System, a: Action)
    requires SleepInv(s.core.pc, s.core.semas, s.sleepers, s.ticks) && Enabled(s, a) && a.Insert?
    ensures Me(s) in s.core.pc && s.core.pc[Me(s)].Inserting? && SortedSleepers(s.sleepers)
    ensures forall y | y in s.sleepers :: y.t != Me(s)
  {
    forall y | y in s.sleepers
      ensures y.t != Me(s)
    {
      assert ListedIn(s.core.pc, y.t, y.deadline);
    }
    hide SortedSleepers;
  }

  lemma InsertedList(s: System, a: Action)
    requires SystemInv(s) && Enabled(s, a) && a.Insert? && Me(s) in s.core.pc && s.core.pc[Me(s)].Inserting?
    ensures Do(s, a).sleepers == InsertSleeper(s.sleepers, Sleeper(Me(s), s.core.pc[Me(s)].deadline))
  {
    hide SystemInv, InsertSleeper, SetPc, Init;
  }

  lemma TickSleepers(s: System, x: Sleeper)
    requires SystemInv(s) && Enabled(s, Tick) && SleepList in s.core.semas
    ensures x in Do(s, Tick).sleepers <==> x in s.sleepers && (s.core.semas[SleepList].value > 0 ==> x.deadline > s.ticks + 1)
  {
    hide SystemInv, CoreInv, Do, Enabled, WokenUp, YieldCpu;
    TickIs(s);
    Basics(s);
    if s.core.semas[SleepList].value > 0 {
      WokenUpKeeps(s);
      TickKeeps(s);
      WokenLeaves(s);
    }
  }

  lemma WokenLeaves(s: System)
    requires SystemInv(s) && s.core.semas[SleepList].value > 0
    ensures forall x | x in s.sleepers :: Private(x.t) in s.core.semas
    ensures forall x :: x in s.sleepers && x.deadline > s.ticks + 1 ==> x in WokenUp(s.(ticks := s.ticks + 1)).sleepers
    ensures forall x :: x in WokenUp(s.(ticks := s.ticks + 1)).sleepers ==> x in s.sleepers
  {
    hide *;
    Basics(s);
    LocksExist(s);
    SleepersHaveSemas(s);
    TryDownKeeps(s.core, SleepList);
    TryDownIs(s.core, SleepList);
    WakeKeepsCore(TryDown(s.core, SleepList), s.sleepers, s.ticks + 1);
    WakeLeaves(TryDown(s.core, SleepList), s.sleepers, s.ticks + 1);
    WokenUpIs(s.(ticks := s.ticks + 1));
  }

  /** x has been linked in behind those with no later deadline. */
  predicate LinkedIn(q: seq<Sleeper>, x: Sleeper, q': seq<Sleeper>) {
    exists k: nat | k <= |q| :: LinkedAt(q, x, q', k)
  }

  predicate LinkedAt(q: seq<Sleeper>, x: Sleeper, q': seq<Sleeper>, k: nat) {
    && k <= |q| && q' == q[..k] + [x] + q[k..]
    && forall i | 0 <= i < |q| :: q[i].deadline <= x.deadline <==> i < k
  }

  predicate Suffix(q: seq<Sleeper>, q': seq<Sleeper>) {
    |q'| <= |q| && q' == q[|q| - |q'|..]
  }

  /** Sleepers are taken off the front of their list, and with the same deadline they come one behind the
      other: who has gone to sleep first is woken first. */
  lemma SleepersInTurn(s: System, a: Action)
    requires SystemInv(s) && Enabled(s, a)
    ensures Me(s) in s.core.pc && (a.Insert? ==> s.core.pc[Me(s)].Inserting?)
    ensures a.Insert? ==> LinkedIn(s.sleepers, Sleeper(Me(s), s.core.pc[Me(s)].deadline), Do(s, a).sleepers)
    ensures !a.Insert? ==> Suffix(s.sleepers, Do(s, a).sleepers)
  {
    hide SystemInv, CoreInv, Do, Enabled, WokenUp, Tested, Up, LinkedIn;
    Basics(s);
    LocksExist(s);
    if Aim(s, a).Some? {
      DoTests(s, a);
      TestedParts(s, Aim(s, a).value, Reason(s, a));
    } else if Raised(s, a).Some? {
      DoUps(s, a);
    } else if a.Tick? {
      TickTakes(s);
    } else if a.Insert? {
      InsertLinks(s, a);
    } else {
      SleepersStay(s, a);
    }
  }

  lemma InsertLinks(s: System, a: Action)
    requires SystemInv(s) && Enabled(s, a) && a.Insert?
    ensures Me(s) in s.core.pc && s.core.pc[Me(s)].Inserting?
    ensures LinkedIn(s.sleepers, Sleeper(Me(s), s.core.pc[Me(s)].deadline), Do(s, a).sleepers)
  {
    hide *;
    PartsOf(s);
    NotYetListed(s, a);
    InsertedBehind(s.sleepers, Sleeper(Me(s), s.core.pc[Me(s)].deadline));
    InsertedList(s, a);
  }

  lemma {:induction false} InsertedBehind(q: seq<Sleeper>, x: Sleeper)
    requires SortedSleepers(q)
    ensures LinkedIn(q, x, InsertSleeper(q, x))
  {
    hide LinkedAt;
    if q != [] && x.deadline >= q[0].deadline {
      InsertedBehind(q[1..], x);
      var k: nat :| k <= |q[1..]| && LinkedAt(q[1..], x, InsertSleeper(q[1..], x), k);
      LinkedFurther(q, x, InsertSleeper(q[1..], x), k);
    } else {
      LinkedFirst(q, x);
    }
  }

  lemma LinkedFurther(q: seq<Sleeper>, x: Sleeper, rest: seq<Sleeper>, k: nat)
    requires q != [] && q[0].deadline <= x.deadline && LinkedAt(q[1..], x, rest, k)
    ensures LinkedAt(q, x, [q[0]] + rest, k + 1)
  {
    assert q[..k + 1] == [q[0]] + q[1..][..k] && q[k + 1..] == q[1..][k..];
    forall i | 0 < i < |q|
      ensures q[i].deadline <= x.deadline <==> i < k + 1
    {
      assert q[i] == q[1..][i - 1];
    }
  }

  lemma LinkedFirst(q: seq<Sleeper>, x: Sleeper)
    requires SortedSleepers(q) && (q == [] || x.deadline < q[0].deadline)
    ensures LinkedAt(q, x, [x] + q, 0)
  {
  }

  lemma TickTakes(s: System)
    requires SystemInv(s) && Enabled(s, Tick) && SleepList in s.core.semas
    ensures Suffix(s.sleepers, Do(s, Tick).sleepers)
  {
    hide SystemInv, CoreInv, Do, Enabled, WokenUp, YieldCpu;
    TickIs(s);
    Basics(s);
    if s.core.semas[SleepList].value > 0 {
      WokenUpKeeps(s);
      TickKeeps(s);
      WokenTakes(s);
    }
  }

  lemma WokenTakes(s: System)
    requires SystemInv(s) && s.core.semas[SleepList].value > 0
    ensures forall x | x in s.sleepers :: Private(x.t) in s.core.semas
    ensures Suffix(s.sleepers, WokenUp(s.(ticks := s.ticks + 1)).sleepers)
  {
    hide *;
    Basics(s);
    LocksExist(s);
    SleepersHaveSemas(s);
    TryDownKeeps(s.core, SleepList);
    TryDownIs(s.core, SleepList);
    WakeKeepsCore(TryDown(s.core, SleepList), s.sleepers, s.ticks + 1);
    WakeTakes(TryDown(s.core, SleepList), s.sleepers, s.ticks + 1);
    WokenUpIs(s.(ticks := s.ticks + 1));
  }

  lemma {:induction false} WakeTakes(c: Core, q: seq<Sleeper>, ticks: int)
    requires CanWake(c, q, ticks)
    ensures Suffix(q, WakeExpired(c, q, ticks).1)
    decreases |q|
  {
    if q != [] && q[0].deadline <= ticks {
      WakeTakes(Up(c, Private(q[0].t)), q[1..], ticks);
    }
  }
}
