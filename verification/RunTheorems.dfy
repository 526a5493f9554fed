/** What holds in every run of the kernel, from boot, whatever the threads do and whenever the timer
    interrupts them. */
module RunTheorems {
  import opened Scheduler
  import opened Semaphores
  import opened KernelRuns
  import opened Wrappers

  /** The thread that is to become idle; thread_start creates it before it turns interrupts on. */
  const IDLE: Tid := 1

  function Boot(): System {
    System(Core(Sched(map[INITIAL := Running, IDLE := Ready], [IDLE], INITIAL, false, IDLE, [IDLE], []),
                map[SleepList := Sema(1, [], 1, 0, 0)],
                map[INITIAL := Free, IDLE := IdleStart]),
           map[], [], 0, 0)
  }

  lemma BootInv()
    ensures SystemInv(Boot())
  {
    hide CoreInv, MutexInv, WhyInv, SleepInv;
    BootCore();
    BootRest();
  }

  lemma BootCore()
    ensures CoreInv(Boot().core)
  {
    var c := Boot().core;
    assert SchedInv(c.sched);
    BootPlaces();
    BootWaits();
    hide SchedInv, PlaceInv, WaitInv, CountInv;
  }

  lemma BootPlaces()
    ensures var c := Boot().core; PlaceInv(c.sched, c.pc)
  {
    var c := Boot().core;
    assert forall t :: !IsBlocked(c.sched, t);
    assert forall t, u :: !IsCreating(c.pc, t, u);
  }

  lemma BootWaits()
    ensures var c := Boot().core; WaitInv(c.sched, c.pc, c.semas) && CountInv(c.sched, c.pc, c.semas)
  {
    var c := Boot().core;
    assert forall t, x :: !IsTesting(c.pc, t, x) && !OnList(c.semas, x, t);
    assert Woken(c.sched, c.pc, SleepList) == {};
  }

  lemma BootRest()
    ensures var s := Boot(); MutexInv(s.core.pc, s.holder, s.core.semas)
    ensures var s := Boot(); WhyInv(s.core.pc, s.core.semas) && SleepInv(s.core.pc, s.core.semas, s.sleepers, s.ticks)
  {
    var s := Boot();
    assert Critical(s.core.pc, SleepList) == {};
    assert forall t, d :: !ListedIn(s.core.pc, t, d);
  }

  /** The state after a run; None when an action was not enabled. In every state that a run reaches
      the invariant holds. */
  function After(run: seq<Action>): (r: Option<System>)
    ensures r.Some? ==> SystemInv(r.value)
  {
    if run == [] then
      BootInv();
      Some(Boot())
    else
      var before := After(run[..|run| - 1]);
      var a := run[|run| - 1];
      if before.Some? && Enabled(before.value, a) then
        StepKeeps(before.value, a);
        Some(Do(before.value, a))
      else None
  }

  /** Whatever is enabled may be the next step of a run. */
  lemma RunGoesOn(run: seq<Action>, a: Action)
    requires After(run).Some? && Enabled(After(run).value, a)
    ensures After(run + [a]) == Some(Do(After(run).value, a))
  {
    hide SystemInv, Enabled, Do;
    assert (run + [a])[..|run|] == run;
  }

  // ----- What a step leaves alone -----------------------------------------------------------------

  /** The history of the ready list grows, and no thread but the current one moves. */
  ghost predicate CoreFrame(c: Core, c': Core) {
    && Later(c.sched, c'.sched)
    && (forall t | t in c.pc && t != Cur(c) && !c.pc[t].Born? :: t in c'.pc && c'.pc[t] == c.pc[t])
  }

  lemma ScheduleAppends(b: Sched)
    requires SomeoneToRun(b) && b.current in b.status && !b.status[b.current].Running?
    ensures Later(b, Schedule(b))
  {
  }

  lemma UpFrame(c: Core, x: Sid)
    requires CanUp(c, x)
    ensures CoreFrame(c, Up(c, x)) && Up(c, x).pc == c.pc && Cur(Up(c, x)) == Cur(c)
  {
  }

  lemma {:induction false} WakeFrame(c: Core, q: seq<Sleeper>, ticks: int)
    requires CanWake(c, q, ticks)
    ensures var c' := WakeExpired(c, q, ticks).0; CoreFrame(c, c') && c'.pc == c.pc && Cur(c') == Cur(c)
    decreases |q|
  {
    if q != [] && q[0].deadline <= ticks {
      UpFrame(c, Private(q[0].t));
      WakeFrame(Up(c, Private(q[0].t)), q[1..], ticks);
    }
  }

  lemma TestFrame(c: Core, x: Sid, why: Why, after: Pc)
    requires x in c.semas && SomeoneToRun(c.sched)
    ensures CoreFrame(c, Test(c, x, why, after))
    ensures c.semas[x].value > 0 ==> Cur(c) in Test(c, x, why, after).pc && Test(c, x, why, after).pc[Cur(c)] == after
    ensures c.semas[x].value == 0 ==>
      Cur(c) in Test(c, x, why, after).pc && Test(c, x, why, after).pc[Cur(c)] == Testing(x, why)
  {
    ScheduleAppends(c.sched.(status := c.sched.status[c.sched.current := Blocked]));
    hide Schedule;
  }

  lemma YieldFrame(c: Core)
    requires Cur(c) in c.sched.status
    ensures CoreFrame(c, YieldCpu(c)) && YieldCpu(c).pc == c.pc
  {
    var b := c.sched;
    if IsIdle(b, b.current) {
      ScheduleAppends(b.(status := b.status[b.current := Ready]));
    } else {
      ScheduleAppends(Enqueue(b, b.current));
    }
    hide Schedule;
  }

  lemma ExitFrame(c: Core)
    requires SomeoneToRun(c.sched)
    ensures CoreFrame(c, ExitThread(c))
  {
    ScheduleAppends(c.sched.(status := c.sched.status[c.sched.current := Dying]));
    hide Schedule;
  }

  lemma IdleBlocksFrame(c: Core)
    requires SomeoneToRun(c.sched)
    ensures CoreFrame(c, IdleBlocks(c)) && IdleBlocks(c).pc == c.pc
  {
    ScheduleAppends(c.sched.(status := c.sched.status[c.sched.current := Blocked]));
    hide Schedule;
  }

  lemma CreateFrame(c: Core, t: Tid)
    requires t !in c.pc
    ensures CoreFrame(c, CreateThread(c, t))
  {
  }

  lemma LaunchFrame(c: Core)
    requires Cur(c) in c.pc && c.pc[Cur(c)].Creating? && IsBlocked(c.sched, c.pc[Cur(c)].child)
    requires c.pc[Cur(c)].child in c.pc && c.pc[c.pc[Cur(c)].child].Born?
    ensures CoreFrame(c, LaunchThread(c))
  {
  }

  lemma FrameOfSame(c: Core, c': Core)
    requires c'.sched == c.sched && forall t | t in c.pc && t != Cur(c) :: t in c'.pc && c'.pc[t] == c.pc[t]
    ensures CoreFrame(c, c')
  {
  }

  lemma TestedFrame(s: System, x: Sid, why: Why)
    requires CoreInv(s.core) && MayTest(s.core, x)
    ensures CoreFrame(s.core, Tested(s, x, why).core)
    ensures var p := if s.core.semas[x].value > 0 then AfterDown(why) else Testing(x, why);
      Me(s) in Tested(s, x, why).core.pc && Tested(s, x, why).core.pc[Me(s)] == p
  {
    hide CoreInv, Test, CoreFrame;
    TestKeeps(s.core, x, why, AfterDown(why));
    TestFrame(s.core, x, why, AfterDown(why));
  }

  lemma UppedFrame(s: System, x: Sid, p: Pc)
    requires CoreInv(s.core) && x in s.core.semas
    ensures CoreFrame(s.core, Upped(s, x, p).core)
    ensures Me(s) in Upped(s, x, p).core.pc && Upped(s, x, p).core.pc[Me(s)] == p
  {
    hide CoreInv, Up, IsBlocked;
    UpEnabled(s.core, x);
    CanUpIs(s.core, x);
    UpFrame(s.core, x);
    SetPcFrame(s.core, Up(s.core, x), p);
  }

  lemma SetPcFrame(c: Core, c1: Core, p: Pc)
    requires CoreFrame(c, c1) && Cur(c1) == Cur(c)
    ensures CoreFrame(c, SetPc(c1, p))
  {
  }

  lemma FramesCompose(c: Core, c1: Core, c2: Core)
    requires CoreFrame(c, c1) && CoreFrame(c1, c2) && Cur(c1) == Cur(c) && c1.pc == c.pc
    ensures CoreFrame(c, c2)
  {
  }

  lemma TickedFrame(s: System)
    requires SystemInv(s)
    ensures CoreFrame(s.core, Ticked(s).core)
  {
    hide SystemInv, CoreInv, WokenUp, YieldCpu, CoreFrame;
    Basics(s);
    LocksExist(s);
    var s1 := s.(ticks := s.ticks + 1);
    if s.core.semas[SleepList].value > 0 {
      WokenUpKeeps(s);
      WokenUpFrame(s);
      var s2 := WokenUp(s1);
      Basics(s2);
      YieldFrame(s2.core);
      FramesCompose(s.core, s2.core, YieldCpu(s2.core));
    } else {
      YieldFrame(s.core);
      FrameOfSame(s.core, s.core);
    }
  }

  lemma WokenUpFrame(s: System)
    requires SystemInv(s) && s.core.semas[SleepList].value > 0
    ensures forall x | x in s.sleepers :: Private(x.t) in s.core.semas
    ensures CoreFrame(s.core, WokenUp(s.(ticks := s.ticks + 1)).core)
  {
    hide *;
    Basics(s);
    LocksExist(s);
    SleepersHaveSemas(s);
    var c1, ticks := TryDown(s.core, SleepList), s.ticks + 1;
    TryDownKeeps(s.core, SleepList);
    TryDownIs(s.core, SleepList);
    FrameOfSame(s.core, c1);
    WokenUpIs(s.(ticks := ticks));
    WakeFrame(c1, s.sleepers, ticks);
    var c2 := WakeExpired(c1, s.sleepers, ticks).0;
    CanUpIs(c2, SleepList);
    UpFrame(c2, SleepList);
    FramesCompose(s.core, c1, c2);
    FramesCompose(s.core, c2, Up(c2, SleepList));
  }

  lemma CanUpIs(c: Core, x: Sid)
    requires x in c.semas && (c.semas[x].waiters != [] ==> IsBlocked(c.sched, c.semas[x].waiters[0]))
    ensures CanUp(c, x)
  {
  }

  lemma ThreadStepFrame(s: System, a: Action)
    requires SystemInv(s) && Enabled(s, a)
    requires a.YieldNow? || a.ExitNow? || a.Spawn? || a.Launch? || a.BecomeIdleThread? || a.IdleWait?
    ensures CoreFrame(s.core, Do(s, a).core)
  {
    hide SystemInv, CoreInv, YieldCpu, ExitThread, CreateThread, LaunchThread, IdleBlocks, IdleBegins, MayTest, CoreFrame, Schedule;
    Basics(s);
    match a {
      case YieldNow => YieldFrame(s.core);
      case ExitNow =>
        ExitNowKeeps(s);
        ExitFrame(s.core);
      case Spawn(t) =>
        NotYet(s.core, t);
        CreateFrame(s.core, t);
      case Launch =>
        LaunchKeeps(s);
        ChildElsewhere(s.core);
        LaunchFrame(s.core);
      case BecomeIdleThread => IdleBeginsFrame(s.core);
      case IdleWait =>
        IdleWaitKeeps(s);
        IdleBlocksFrame(s.core);
    }
  }

  lemma IdleBeginsFrame(c: Core)
    ensures CoreFrame(c, IdleBegins(c))
  {
  }

  lemma DownStepFrame(s: System, a: Action)
    requires SystemInv(s) && Enabled(s, a) && (a.Down? || a.Acquire? || a.Resume? || a.SleepDown? || a.SleepWait?)
    ensures CoreFrame(s.core, Do(s, a).core)
  {
    hide SystemInv, CoreInv, Tested, MayTest, CoreFrame;
    Basics(s);
    var p := s.core.pc[Me(s)];
    match a {
      case Down(id) =>
        TestKeepsAll(s, Plain(id), ForCaller);
        TestedFrame(s, Plain(id), ForCaller);
      case Acquire(l) =>
        TestKeepsAll(s, OfLock(l), ForLock(l));
        TestedFrame(s, OfLock(l), ForLock(l));
      case Resume =>
        ResumeKeeps(s);
        TestedFrame(s, p.s, p.why);
      case SleepDown =>
        LocksExist(s);
        TestKeepsAll(s, SleepList, ToInsert(p.deadline));
        TestedFrame(s, SleepList, ToInsert(p.deadline));
      case SleepWait =>
        PrivateExists(s);
        TestKeepsAll(s, Private(Me(s)), ToWake(p.deadline));
        TestedFrame(s, Private(Me(s)), ToWake(p.deadline));
    }
  }

  lemma PrivateExists(s: System)
    requires SystemInv(s) && Me(s) in s.core.pc && s.core.pc[Me(s)].AboutToWait?
    ensures Private(Me(s)) in s.core.semas
  {
    StepEnabled(s);
  }

  lemma UpStepFrame(s: System, a: Action)
    requires SystemInv(s) && Enabled(s, a) && (a.UpSema? || a.FinishRelease? || a.FinishInsert?)
    ensures CoreFrame(s.core, Do(s, a).core)
  {
    hide SystemInv, CoreInv, Upped, CoreFrame;
    Basics(s);
    var p := s.core.pc[Me(s)];
    match a {
      case UpSema(id) => UppedFrame(s, Plain(id), Free);
      case FinishRelease =>
        FinishReleaseKeeps(s, p.l);
        UppedFrame(s, OfLock(p.l), Free);
      case FinishInsert =>
        LocksExist(s);
        UppedFrame(s, SleepList, AboutToWait(p.deadline));
    }
  }

  lemma PlainStepFrame(s: System, a: Action)
    requires SystemInv(s) && Enabled(s, a)
    requires a.InitSema? || a.TryDownSema? || a.InitLock? || a.TryAcquire? || a.SetHolder? || a.Release? || a.Sleep? || a.Insert?
    ensures Do(s, a).core.sched == s.core.sched
    ensures var pc' := Do(s, a).core.pc;
      Me(s) in pc' && forall t | t in s.core.pc && t != Me(s) :: t in pc' && pc'[t] == s.core.pc[t]
  {
    hide SystemInv;
    match a {
      case InitSema(_, _) =>
      case TryDownSema(_) =>
      case InitLock(_) =>
      case TryAcquire(_) =>
      case SetHolder =>
      case Release(_) =>
      case Sleep(_) =>
      case Insert =>
    }
  }

  lemma StepFrame(s: System, a: Action)
    requires SystemInv(s) && Enabled(s, a)
    ensures CoreFrame(s.core, Do(s, a).core)
  {
    hide *;
    if a.YieldNow? || a.ExitNow? || a.Spawn? || a.Launch? || a.BecomeIdleThread? || a.IdleWait? {
      ThreadStepFrame(s, a);
    } else if a.Tick? {
      TickIs(s);
      TickedFrame(s);
    } else if a.Down? || a.Acquire? || a.Resume? || a.SleepDown? || a.SleepWait? {
      DownStepFrame(s, a);
    } else if a.UpSema? || a.FinishRelease? || a.FinishInsert? {
      UpStepFrame(s, a);
    } else {
      PlainStepFrame(s, a);
      Basics(s);
      FrameOfSame(s.core, Do(s, a).core);
    }
  }

  lemma TickIs(s: System)
    requires SystemInv(s) && Enabled(s, Tick)
    ensures Do(s, Tick) == Ticked(s)
  {
    hide SystemInv, Ticked;
  }

  // ----- First in, first out ----------------------------------------------------------------------

  lemma {:induction false} RunAppends(run: seq<Action>, k: nat)
    requires k <= |run| && After(run).Some?
    ensures After(run[..k]).Some? && Later(After(run[..k]).value.core.sched, After(run).value.core.sched)
  {
    hide *;
    if k == |run| {
      assert run[..k] == run;
      LaterItself(After(run).value.core.sched);
    } else {
      var before := run[..|run| - 1];
      assert before[..k] == run[..k];
      LastStep(run);
      RunAppends(before, k);
      StepFrame(After(before).value, run[|run| - 1]);
      FrameLater(After(before).value.core, After(run).value.core);
      LaterTransitive(After(run[..k]).value.core.sched, After(before).value.core.sched, After(run).value.core.sched);
    }
  }

  lemma LastStep(run: seq<Action>)
    requires run != [] && After(run).Some?
    ensures var before := After(run[..|run| - 1]);
      && before.Some? && SystemInv(before.value) && Enabled(before.value, run[|run| - 1])
      && After(run).value == Do(before.value, run[|run| - 1])
  {
    hide SystemInv, Enabled, Do;
  }

  lemma LaterItself(b: Sched)
    ensures Later(b, b)
  {
  }

  lemma FrameLater(c: Core, c': Core)
    requires CoreFrame(c, c')
    ensures Later(c.sched, c'.sched)
  {
  }

  lemma LaterTransitive(a: Sched, b: Sched, c: Sched)
    requires Later(a, b) && Later(b, c)
    ensures Later(a, c)
  {
  }

  /** In any run, a thread that is at position i of the ready list after k steps is dispatched after
      exactly i other dispatches: until then it is still on the list, one place further on for each. */
  lemma ReadyThreadsRunInTurn(run: seq<Action>, k: nat, i: nat)
    requires k <= |run| && After(run).Some?
    requires After(run[..k]).Some? && i < |After(run[..k]).value.core.sched.ready|
    ensures var (b, b') := (After(run[..k]).value.core.sched, After(run).value.core.sched);
      && b.dispatched <= b'.dispatched
      && var n := |b'.dispatched| - |b.dispatched|;
      if n <= i then i - n < |b'.ready| && b'.ready[i - n] == b.ready[i]
      else b'.dispatched[|b.dispatched| + i] == b.ready[i]
  {
    hide *;
    RunAppends(run, k);
    QueueOf(After(run[..k]).value);
    QueueOf(After(run).value);
    InTurn(After(run[..k]).value.core.sched, After(run).value.core.sched, i);
  }

  lemma InTurn(b: Sched, b': Sched, i: nat)
    requires QueueInv(b) && QueueInv(b') && Later(b, b') && i < |b.ready|
    ensures b.dispatched <= b'.dispatched
    ensures var n := |b'.dispatched| - |b.dispatched|;
      if n <= i then i - n < |b'.ready| && b'.ready[i - n] == b.ready[i]
      else b'.dispatched[|b.dispatched| + i] == b.ready[i]
  {
    hide QueueInv;
    DispatchedInOrder(b, b', i);
  }

  lemma QueueOf(s: System)
    requires SystemInv(s)
    ensures QueueInv(s.core.sched)
  {
  }

  // ----- Locks ------------------------------------------------------------------------------------

  /** The threads between the end of the sema_down in lock_acquire and the sema_up in lock_release. */
  ghost function Inside(s: System, l: nat): set<Tid> {
    Critical(s.core.pc, OfLock(l)) + if l in s.holder then {s.holder[l]} else {}
  }

  /** In every reachable state the number of threads inside a lock is one less the value of its
      semaphore; so there is one at most, and it is the holder whenever there is a holder. */
  lemma LocksExclude(run: seq<Action>, l: nat)
    requires After(run).Some? && OfLock(l) in After(run).value.core.semas
    ensures var s := After(run).value;
      && s.core.semas[OfLock(l)].value <= 1
      && |Inside(s, l)| == 1 - s.core.semas[OfLock(l)].value
      && (l in s.holder ==> Inside(s, l) == {s.holder[l]})
  {
    var s := After(run).value;
    MutexOf(s);
    var c := Critical(s.core.pc, OfLock(l));
    hide SystemInv, After;
    assert s.core.semas[OfLock(l)].value + |c| + Held(s.holder, OfLock(l)) == 1;
    if l in s.holder {
      assert c == {};
    } else {
      assert Inside(s, l) == c;
    }
  }

  lemma MutexOf(s: System)
    requires SystemInv(s)
    ensures MutexInv(s.core.pc, s.holder, s.core.semas)
  {
  }

  // ----- Semaphores and threads -------------------------------------------------------------------

  /** In every reachable state a semaphore's value is its initial value plus the ups less the
      completed downs, and while threads wait it is at most the number of woken threads that have
      not tested it again. */
  lemma NoLostWakeUps(run: seq<Action>, x: Sid)
    requires After(run).Some? && x in After(run).value.core.semas
    ensures var (c, sema) := (After(run).value.core, After(run).value.core.semas[x]);
      && sema.value == sema.initial + sema.ups - sema.downs
      && (sema.waiters != [] ==> sema.value <= |Woken(c.sched, c.pc, x)|)
  {
    hide After;
    CoreOf(After(run).value);
    CountOf(After(run).value.core, x);
  }

  lemma CoreOf(s: System)
    requires SystemInv(s)
    ensures CoreInv(s.core)
  {
  }

  /** In every reachable state exactly one thread runs; the ready list holds the other ready threads
      but idle, once each; and no thread is on two lists. */
  lemma ThreadsInOrder(run: seq<Action>)
    requires After(run).Some?
    ensures var c := After(run).value.core;
      && Cur(c) in c.sched.status
      && (forall t | t in c.sched.status :: c.sched.status[t].Running? <==> t == Cur(c))
      && Distinct(c.sched.ready)
      && (forall t | t in c.sched.status ::
            t in c.sched.ready <==> c.sched.status[t].Ready? && !IsIdle(c.sched, t))
      && (forall x, t | OnList(c.semas, x, t) ::
            IsBlocked(c.sched, t) && t !in c.sched.ready && forall y :: OnList(c.semas, y, t) ==> x == y)
  {
    hide After;
    CoreOf(After(run).value);
    ListsOf(After(run).value.core);
  }

  lemma ListsOf(c: Core)
    requires CoreInv(c)
    ensures Cur(c) in c.sched.status && Distinct(c.sched.ready)
    ensures forall t | t in c.sched.status :: c.sched.status[t].Running? <==> t == Cur(c)
    ensures forall t | t in c.sched.status :: t in c.sched.ready <==> c.sched.status[t].Ready? && !IsIdle(c.sched, t)
    ensures forall x, t | OnList(c.semas, x, t) ::
      IsBlocked(c.sched, t) && t !in c.sched.ready && forall y :: OnList(c.semas, y, t) ==> x == y
  {
  }

  // ----- timer_sleep ------------------------------------------------------------------------------

  /** Inside a timer_sleep that is not to return before the tick d. */
  predicate Asleep(p: Pc, d: int) {
    || p == Starting(d) || p == Inserting(d) || Listed(p, d)
    || (p.Testing? && p.why == ToInsert(d))
  }

  predicate AsleepIn(c: Core, t: Tid, d: int) {
    t in c.pc && Asleep(c.pc[t], d)
  }

  /** The sleeping thread's own steps take it through timer_sleep with the same deadline, and out of
      it only when the deadline has come. */
  lemma SleeperMoves(s: System, a: Action, d: int)
    requires SystemInv(s) && Enabled(s, a) && AsleepIn(s.core, Me(s), d) && !a.Tick?
    ensures AsleepIn(Do(s, a).core, Me(s), d) || s.ticks >= d
  {
    hide SystemInv, CoreInv, Tested, Upped, MayTest;
    Basics(s);
    var p := s.core.pc[Me(s)];
    match a {
      case SleepDown =>
        LocksExist(s);
        TestKeepsAll(s, SleepList, ToInsert(d));
        TestedFrame(s, SleepList, ToInsert(d));
      case Insert =>
      case FinishInsert =>
        LocksExist(s);
        UppedFrame(s, SleepList, AboutToWait(d));
      case SleepWait =>
        PrivateExists(s);
        TestKeepsAll(s, Private(Me(s)), ToWake(d));
        TestedFrame(s, Private(Me(s)), ToWake(d));
      case Resume =>
        ResumeKeeps(s);
        TestedFrame(s, p.s, p.why);
      case FinishRelease =>
      case SetHolder =>
      case Launch =>
      case BecomeIdleThread =>
      case IdleWait =>
      case Tick =>
    }
  }

  lemma SleeperStays(s: System, a: Action, t: Tid, d: int)
    requires SystemInv(s) && Enabled(s, a) && AsleepIn(s.core, t, d)
    ensures AsleepIn(Do(s, a).core, t, d) || s.ticks >= d
  {
    hide *;
    if t == Me(s) && !a.Tick? {
      SleeperMoves(s, a, d);
    } else {
      if a.Tick? {
        TickIs(s);
        TickKeeps(s);
      } else {
        StepFrame(s, a);
        Basics(s);
      }
      OthersStayAsleep(s.core, Do(s, a).core, t, d);
    }
  }

  lemma OthersStayAsleep(c: Core, c': Core, t: Tid, d: int)
    requires AsleepIn(c, t, d) && (c'.pc == c.pc || (CoreFrame(c, c') && t != Cur(c)))
    ensures AsleepIn(c', t, d)
  {
  }

  /** timer_sleep never returns early: if thread t calls timer_sleep (n) in step k of a run, then in
      every later state t is still inside that call, or n ticks have passed since. */
  lemma {:induction false} SleepIsLongEnough(run: seq<Action>, k: nat, t: Tid, n: int)
    requires k < |run| && After(run).Some? && run[k] == Sleep(n) && n >= 0
    requires After(run[..k]).Some? && t == Me(After(run[..k]).value)
    ensures var (s, s') := (After(run[..k]).value, After(run).value);
      AsleepIn(s'.core, t, s.ticks + n) || s'.ticks >= s.ticks + n
  {
    hide *;
    var before := run[..|run| - 1];
    LastStep(run);
    if k == |run| - 1 {
      FallsAsleep(After(before).value, n);
    } else {
      assert before[..k] == run[..k];
      SleepIsLongEnough(before, k, t, n);
      var d := After(run[..k]).value.ticks + n;
      TimePasses(After(before).value, run[|run| - 1]);
      if AsleepIn(After(before).value.core, t, d) {
        SleeperStays(After(before).value, run[|run| - 1], t, d);
      }
    }
  }

  lemma FallsAsleep(s: System, n: int)
    requires SystemInv(s) && Enabled(s, Sleep(n)) && n >= 0
    ensures AsleepIn(Do(s, Sleep(n)).core, Me(s), s.ticks + n)
  {
    hide SystemInv;
  }

  lemma TimePasses(s: System, a: Action)
    requires SystemInv(s) && Enabled(s, a)
    ensures Do(s, a).ticks == if a.Tick? then s.ticks + 1 else s.ticks
  {
    hide SystemInv, Test, Up, Ticked, YieldCpu, ExitThread, CreateThread, LaunchThread, IdleBegins, IdleBlocks, TryDown, Init, SetPc, InsertSleeper;
    if a.Tick? {
      TickKeeps(s);
    }
  }

  /** After a tick that finds the list's semaphore free no sleeper is listed whose time has come. */
  lemma TickWakesAllExpired(s: System)
    requires SystemInv(s) && Enabled(s, Tick) && s.core.semas[SleepList].value > 0
    ensures forall x | x in Do(s, Tick).sleepers :: x.deadline > Do(s, Tick).ticks
  {
    hide SystemInv, Ticked;
    TickKeeps(s);
  }
}
