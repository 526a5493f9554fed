/** What one step of the kernel does, said without the functions that make the steps up: who joins the ready
    list and who runs next, where threads stand afterwards, and what becomes of each semaphore. The theorems
    on progress follow from this. */
module StepLaws {
  import opened Scheduler
  import opened Semaphores
  import opened KernelRuns
  import opened RunTheorems
  import opened Wrappers

  // ----- The ready list ---------------------------------------------------------------------------

  /** Threads join the back of the ready list, and then, if there is a switch, its front runs next, or idle
      if it is empty. */
  predicate Scheduled(b: Sched, b': Sched, joins: seq<Tid>, switches: bool) {
    var queue := b.ready + joins;
    && b'.entered == b.entered + joins && b'.idleThread == b.idleThread
    && if switches && queue != [] then
         b'.current == queue[0] && b'.ready == queue[1..] && b'.dispatched == b.dispatched + [queue[0]]
       else
         && b'.current == (if switches then b.idleThread else b.current)
         && b'.ready == queue && b'.dispatched == b.dispatched
  }

  lemma ScheduledThen(b: Sched, b1: Sched, b2: Sched, joins: seq<Tid>, more: seq<Tid>, switches: bool)
    requires Scheduled(b, b1, joins, false) && Scheduled(b1, b2, more, switches)
    ensures Scheduled(b, b2, joins + more, switches)
  {
    assert b.ready + (joins + more) == b.ready + joins + more;
    assert b.entered + (joins + more) == b.entered + joins + more;
  }

  lemma NotScheduled(b: Sched, b': Sched)
    requires b'.entered == b.entered && b'.idleThread == b.idleThread && b'.current == b.current
    requires b'.ready == b.ready && b'.dispatched == b.dispatched
    ensures Scheduled(b, b', [], false)
  {
    assert b.ready + [] == b.ready && b.entered + [] == b.entered;
  }

  lemma BlockSchedules(b: Sched)
    requires SchedInv(b) && SomeoneToRun(b)
    ensures Scheduled(b, Block(b), [], true)
  {
    assert b.ready + [] == b.ready && b.entered + [] == b.entered;
  }

  lemma ExitSchedules(b: Sched)
    requires SchedInv(b) && SomeoneToRun(b)
    ensures Scheduled(b, Exit(b), [], true)
  {
    assert b.ready + [] == b.ready && b.entered + [] == b.entered;
  }

  /** The thread that gives the processor away, unless that is idle. */
  function Yields(b: Sched): seq<Tid> {
    if IsIdle(b, b.current) then [] else [b.current]
  }

  lemma YieldSchedules(b: Sched)
    requires SchedInv(b)
    ensures Scheduled(b, Yield(b), Yields(b), true)
  {
    assert b.ready + [] == b.ready && b.entered + [] == b.entered;
  }

  function FirstOf(q: seq<Tid>): seq<Tid> {
    if q == [] then [] else [q[0]]
  }

  lemma UpSchedules(c: Core, x: Sid)
    requires CanUp(c, x)
    ensures Scheduled(c.sched, Up(c, x).sched, FirstOf(c.semas[x].waiters), false)
    ensures forall t | t !in FirstOf(c.semas[x].waiters) :: IsBlocked(Up(c, x).sched, t) == IsBlocked(c.sched, t)
  {
    assert c.sched.ready + [] == c.sched.ready && c.sched.entered + [] == c.sched.entered;
  }

  /** The sleeping threads whose time has come and that are blocked, in the order of the list. */
  function Due(b: Sched, q: seq<Sleeper>, ticks: int): seq<Tid> {
    if q == [] then []
    else (if q[0].deadline <= ticks && IsBlocked(b, q[0].t) then [q[0].t] else []) + Due(b, q[1..], ticks)
  }

  lemma {:induction false} NotDue(b: Sched, q: seq<Sleeper>, ticks: int)
    requires forall x | x in q :: x.deadline > ticks
    ensures Due(b, q, ticks) == []
  {
    if q != [] {
      NotDue(b, q[1..], ticks);
    }
  }

  lemma {:induction false} DueSame(b: Sched, b': Sched, q: seq<Sleeper>, ticks: int)
    requires forall x | x in q :: IsBlocked(b', x.t) == IsBlocked(b, x.t)
    ensures Due(b', q, ticks) == Due(b, q, ticks)
  {
    if q != [] {
      DueSame(b, b', q[1..], ticks);
    }
  }

  /** A sleeper's own semaphore has the sleeper on its wait list, when it is blocked, and nobody else ever. */
  lemma OwnWaiters(c: Core, t: Tid, d: int)
    requires CoreInv(c) && WhyInv(c.pc, c.semas) && ListedIn(c.pc, t, d) && Private(t) in c.semas
    ensures c.semas[Private(t)].waiters == if IsBlocked(c.sched, t) then [t] else []
  {
    hide SchedInv, CountInv;
    var w := c.semas[Private(t)].waiters;
    forall u | u in w
      ensures u == t && IsBlocked(c.sched, t)
    {
      assert OnList(c.semas, Private(t), u);
      assert WhyOk(u, c.pc[u], c.semas);
    }
    if IsBlocked(c.sched, t) {
      assert WhyOk(t, c.pc[t], c.semas);
      assert OnList(c.semas, Private(t), t);
    }
    OneOnly(w, t);
  }

  lemma {:induction false} OneOnly(w: seq<Tid>, t: Tid)
    requires Distinct(w) && forall u | u in w :: u == t
    ensures w == if t in w then [t] else []
  {
    if w != [] {
      assert w == [w[0]] + w[1..];
      assert w[0] in w && forall u | u in w[1..] :: u in w;
      OneOnly(w[1..], t);
      FrontLeaves(w);
    }
  }

  lemma {:induction false} WakeSchedules(c: Core, q: seq<Sleeper>, ticks: int)
    requires CoreInv(c) && WhyInv(c.pc, c.semas) && SleepInv(c.pc, c.semas, q, ticks)
    requires forall x | x in q :: Private(x.t) in c.semas
    ensures CanWake(c, q, ticks)
    ensures Scheduled(c.sched, WakeExpired(c, q, ticks).0.sched, Due(c.sched, q, ticks), false)
    decreases |q|
  {
    hide CoreInv, WhyInv, Scheduled, CanUp, Up;
    if q != [] && q[0].deadline <= ticks {
      var t, s := q[0].t, Private(q[0].t);
      assert q[0] in q;
      UpEnabled(c, s);
      CanUpIs(c, s);
      UpKeeps(c, s);
      UpIs(c, s);
      var c1 := Up(c, s);
      WakeOne(c.pc, c.semas, q, ticks, c1.semas);
      SameWhy(c.pc, c.semas, c1.semas);
      OwnWaiters(c, t, q[0].deadline);
      UpSchedules(c, s);
      assert forall x | x in q[1..] :: x.t != t;
      DueSame(c.sched, c1.sched, q[1..], ticks);
      WakeSchedules(c1, q[1..], ticks);
      ScheduledThen(c.sched, c1.sched, WakeExpired(c1, q[1..], ticks).0.sched, FirstOf(c.semas[s].waiters), Due(c1.sched, q[1..], ticks), false);
    } else {
      LateFirst(q, ticks);
      NotDue(c.sched, q, ticks);
      NotScheduled(c.sched, c.sched);
    }
  }

  lemma SameWhy(pc: map<Tid, Pc>, semas: map<Sid, Sema>, semas': map<Sid, Sema>)
    requires WhyInv(pc, semas) && semas'.Keys == semas.Keys
    ensures WhyInv(pc, semas')
  {
  }

  lemma LateFirst(q: seq<Sleeper>, ticks: int)
    requires SortedSleepers(q) && (q == [] || q[0].deadline > ticks)
    ensures forall x | x in q :: x.deadline > ticks
  {
    forall x | x in q
      ensures x.deadline > ticks
    {
      var i :| 0 <= i < |q| && q[i] == x;
      assert i > 0 ==> q[0].deadline <= q[i].deadline;
    }
  }

  // ----- What a step is aimed at ------------------------------------------------------------------

  /** The semaphore that the step tests, and blocks on if the value is 0. */
  function Aim(s: System, a: Action): Option<Sid>
    requires Me(s) in s.core.pc
  {
    var p := s.core.pc[Me(s)];
    match a
    case Down(id) => Some(Plain(id))
    case Acquire(l) => Some(OfLock(l))
    case Resume => if p.Testing? then Some(p.s) else None
    case SleepDown => Some(SleepList)
    case SleepWait => Some(Private(Me(s)))
    case _ => None
  }

  /** The semaphore that the step ups. */
  function Raised(s: System, a: Action): Option<Sid>
    requires Me(s) in s.core.pc
  {
    var p := s.core.pc[Me(s)];
    match a
    case UpSema(id) => Some(Plain(id))
    case FinishRelease => if p.Releasing? then Some(OfLock(p.l)) else None
    case FinishInsert => Some(SleepList)
    case _ => None
  }

  function Value(c: Core, x: Sid): nat {
    if x in c.semas then c.semas[x].value else 0
  }

  function Waiters(c: Core, x: Sid): seq<Tid> {
    if x in c.semas then c.semas[x].waiters else []
  }

  /** Who joins the ready list in the step, in this order. */
  function Joins(s: System, a: Action): seq<Tid>
    requires Me(s) in s.core.pc
  {
    var (c, p) := (s.core, s.core.pc[Me(s)]);
    if Raised(s, a).Some? then FirstOf(Waiters(c, Raised(s, a).value))
    else if a.YieldNow? then Yields(c.sched)
    else if a.Launch? then (if p.Creating? then [p.child] else [])
    else if a.Tick? then
      (if Value(c, SleepList) > 0 then Due(c.sched, s.sleepers, s.ticks + 1) + FirstOf(Waiters(c, SleepList)) else [])
      + if s.slice + 1 >= TIME_SLICE then Yields(c.sched) else []
    else []
  }

  /** Whether the thread gives up the processor in the step. */
  predicate Switches(s: System, a: Action)
    requires Me(s) in s.core.pc
  {
    || a.YieldNow? || a.ExitNow? || a.IdleWait?
    || (a.Tick? && s.slice + 1 >= TIME_SLICE)
    || (Aim(s, a).Some? && Value(s.core, Aim(s, a).value) == 0)
  }

  /** Why the step tests a semaphore, and where the thread goes after it was upped. */
  function Reason(s: System, a: Action): Why
    requires Me(s) in s.core.pc
  {
    var p := s.core.pc[Me(s)];
    match a
    case Acquire(l) => ForLock(l)
    case Resume => if p.Testing? then p.why else ForCaller
    case SleepDown => if p.Starting? then ToInsert(p.deadline) else ForCaller
    case SleepWait => if p.AboutToWait? then ToWake(p.deadline) else ForCaller
    case _ => ForCaller
  }

  lemma DoTests(s: System, a: Action)
    requires SystemInv(s) && Enabled(s, a) && Aim(s, a).Some?
    ensures CoreInv(s.core) && MayTest(s.core, Aim(s, a).value) && Aim(s, a).value in s.core.semas
    ensures Do(s, a) == Tested(s, Aim(s, a).value, Reason(s, a))
  {
    hide SystemInv, CoreInv, Tested, MayTest;
    Basics(s);
    var p := s.core.pc[Me(s)];
    match a {
      case Down(id) => TestKeepsAll(s, Plain(id), ForCaller);
      case Acquire(l) => TestKeepsAll(s, OfLock(l), ForLock(l));
      case Resume => ResumeKeeps(s);
      case SleepDown =>
        LocksExist(s);
        TestKeepsAll(s, SleepList, ToInsert(p.deadline));
      case SleepWait =>
        PrivateExists(s);
        TestKeepsAll(s, Private(Me(s)), ToWake(p.deadline));
    }
  }

  lemma TestedParts(s: System, x: Sid, why: Why)
    requires CoreInv(s.core) && MayTest(s.core, x) && x in s.core.semas
    ensures SomeoneToRun(s.core.sched)
    ensures var (me, sema, s') := (Me(s), s.core.semas[x], Tested(s, x, why));
      && s'.holder == s.holder && s'.sleepers == s.sleepers && s'.ticks == s.ticks
      && if sema.value == 0 then
           && s'.core.sched == Block(s.core.sched) && s'.core.pc == s.core.pc[me := Testing(x, why)]
           && s'.core.semas == s.core.semas[x := sema.(waiters := sema.waiters + [me])] && s'.slice == 0
         else
           && s'.core.sched == s.core.sched && s'.core.pc == s.core.pc[me := AfterDown(why)]
           && s'.core.semas == s.core.semas[x := sema.(value := sema.value - 1, downs := sema.downs + 1)]
           && s'.slice == s.slice
  {
    hide CoreInv, MayTest, Block;
    TestKeeps(s.core, x, why, AfterDown(why));
  }

  lemma SchedOf(c: Core)
    requires CoreInv(c)
    ensures SchedInv(c.sched)
  {
  }

  lemma TestSchedules(s: System, a: Action)
    requires SystemInv(s) && Enabled(s, a) && Aim(s, a).Some?
    ensures Scheduled(s.core.sched, Do(s, a).core.sched, [], Switches(s, a))
    ensures Do(s, a).slice == if Switches(s, a) then 0 else s.slice
  {
    hide SystemInv, CoreInv, Do, Enabled, Tested, MayTest, Block, Scheduled, SchedInv, Reason;
    Basics(s);
    DoTests(s, a);
    var x := Aim(s, a).value;
    TestedParts(s, x, Reason(s, a));
    if s.core.semas[x].value == 0 {
      SchedOf(s.core);
      BlockSchedules(s.core.sched);
    } else {
      NotScheduled(s.core.sched, s.core.sched);
    }
  }

  lemma DoUps(s: System, a: Action)
    requires SystemInv(s) && Enabled(s, a) && Raised(s, a).Some?
    ensures CoreInv(s.core) && CanUp(s.core, Raised(s, a).value) && !Raised(s, a).value.Private?
    ensures var (c, me) := (Up(s.core, Raised(s, a).value), Me(s));
      && c.sched.current == me && c.pc == s.core.pc
      && Do(s, a) == s.(core := c.(pc := c.pc[me := Goes(s, a)]))
  {
    hide SystemInv, CoreInv, Upped, Up, SetPc, CanUp;
    Basics(s);
    LocksExist(s);
    var p := s.core.pc[Me(s)];
    if a.FinishRelease? {
      FinishReleaseKeeps(s, p.l);
    }
    var x := Raised(s, a).value;
    UpEnabled(s.core, x);
    CanUpIs(s.core, x);
    UpIs(s.core, x);
    UppedIs(s, x, Goes(s, a));
    SetPcIs(Up(s.core, x), Goes(s, a));
  }

  /** Where the thread that takes the step is afterwards, if it is still there. */
  function Goes(s: System, a: Action): Pc
    requires Me(s) in s.core.pc
  {
    var p := s.core.pc[Me(s)];
    if Aim(s, a).Some? then
      var x := Aim(s, a).value;
      if Value(s.core, x) == 0 then Testing(x, Reason(s, a)) else AfterDown(Reason(s, a))
    else
      match a
      case TryAcquire(l) => if Value(s.core, OfLock(l)) > 0 then SettingHolder(l) else p
      case SetHolder => Free
      case Release(l) => Releasing(l)
      case FinishRelease => Free
      case Spawn(t) => Creating(t)
      case Launch => Free
      case BecomeIdleThread => IdleLoop
      case Sleep(n) => if n < 0 then p else Starting(s.ticks + n)
      case Insert => if p.Inserting? then Inserted(p.deadline) else p
      case FinishInsert => if p.Inserted? then AboutToWait(p.deadline) else p
      case _ => p
  }

  /** Where all threads are afterwards: thread_create makes one and then lets it run, thread_exit ends one,
      whose page is freed unless it is the initial thread's, and no other thread moves. */
  function Places(s: System, a: Action): map<Tid, Pc>
    requires Me(s) in s.core.pc
  {
    var (pc, me) := (s.core.pc, Me(s));
    match a
    case Spawn(t) => pc[t := Born][me := Goes(s, a)]
    case Launch => (if pc[me].Creating? then pc[pc[me].child := Free] else pc)[me := Goes(s, a)]
    case ExitNow => if me == INITIAL then pc else pc - {me}
    case _ => pc[me := Goes(s, a)]
  }

  lemma UpStep(s: System, a: Action)
    requires SystemInv(s) && Enabled(s, a) && Raised(s, a).Some?
    ensures Scheduled(s.core.sched, Do(s, a).core.sched, Joins(s, a), Switches(s, a))
    ensures Do(s, a).slice == s.slice && !Switches(s, a) && Do(s, a).core.pc == Places(s, a)
  {
    hide SystemInv, CoreInv, Do, Enabled, Up, CanUp, Scheduled, Goes;
    Basics(s);
    DoUps(s, a);
    CanUpOf(s.core, Raised(s, a).value);
    UpSchedules(s.core, Raised(s, a).value);
  }

  lemma CanUpOf(c: Core, x: Sid)
    requires CanUp(c, x)
    ensures x in c.semas
  {
  }

  lemma TestStep(s: System, a: Action)
    requires SystemInv(s) && Enabled(s, a) && Aim(s, a).Some?
    ensures Scheduled(s.core.sched, Do(s, a).core.sched, Joins(s, a), Switches(s, a))
    ensures Do(s, a).slice == (if Switches(s, a) then 0 else s.slice) && Do(s, a).core.pc == Places(s, a)
  {
    hide SystemInv, CoreInv, Do, Enabled, Tested, MayTest, Block, Scheduled, Reason;
    Basics(s);
    TestSchedules(s, a);
    DoTests(s, a);
    TestedParts(s, Aim(s, a).value, Reason(s, a));
  }

  lemma YieldStep(s: System, a: Action)
    requires SystemInv(s) && Enabled(s, a) && a.YieldNow?
    ensures Scheduled(s.core.sched, Do(s, a).core.sched, Joins(s, a), Switches(s, a))
    ensures Do(s, a).slice == 0 && Switches(s, a) && Do(s, a).core.pc == Places(s, a) && Do(s, a).core.semas == s.core.semas
  {
    hide SystemInv, CoreInv, Yield, Scheduled;
    Basics(s);
    SchedOf(s.core);
    YieldSchedules(s.core.sched);
  }

  lemma ExitStep(s: System, a: Action)
    requires SystemInv(s) && Enabled(s, a) && a.ExitNow?
    ensures Scheduled(s.core.sched, Do(s, a).core.sched, Joins(s, a), Switches(s, a))
    ensures Do(s, a).slice == 0 && Switches(s, a) && Do(s, a).core.pc == Places(s, a) && Do(s, a).core.semas == s.core.semas
    ensures var b := Do(s, a).core.sched;
      && Me(s) != b.current && Me(s) !in b.ready
      && (if Me(s) == INITIAL then Me(s) in b.status && b.status[Me(s)].Dying? else Me(s) !in b.status)
  {
    hide SystemInv, CoreInv, Exit, Scheduled;
    Basics(s);
    ExitNowKeeps(s);
    SchedOf(s.core);
    ExitSchedules(s.core.sched);
    ExitLeaves(s);
  }

  /** The thread that exits is on no list, and its page is freed unless it is the initial thread's. */
  lemma ExitLeaves(s: System)
    requires SystemInv(s) && InCode(s)
    ensures SomeoneToRun(s.core.sched)
    ensures var b := Exit(s.core.sched);
      && Me(s) != b.current && Me(s) !in b.ready
      && (if Me(s) == INITIAL then Me(s) in b.status && b.status[Me(s)].Dying? else Me(s) !in b.status)
  {
    Basics(s);
    SchedOf(s.core);
    NotIdle(s);
    hide SystemInv, CoreInv;
    var b := s.core.sched;
    assert Me(s) !in b.ready;
    ExitKeeps(b);
    ScheduleStatus(b.(status := b.status[b.current := Dying]));
  }

  lemma NotIdle(s: System)
    requires SystemInv(s) && InCode(s)
    ensures Me(s) != s.core.sched.idleThread
  {
    StepEnabled(s);
    hide SystemInv, CoreInv;
  }

  lemma CreateSteps(s: System, a: Action)
    requires SystemInv(s) && Enabled(s, a) && (a.Spawn? || a.Launch?)
    ensures Scheduled(s.core.sched, Do(s, a).core.sched, Joins(s, a), Switches(s, a))
    ensures Do(s, a).slice == s.slice && !Switches(s, a) && Do(s, a).core.pc == Places(s, a) && Do(s, a).core.semas == s.core.semas
  {
    hide SystemInv, CoreInv;
    Basics(s);
    assert s.core.sched.ready + [] == s.core.sched.ready && s.core.sched.entered + [] == s.core.sched.entered;
    if a.Launch? {
      LaunchKeeps(s);
    }
  }

  lemma IdleSteps(s: System, a: Action)
    requires SystemInv(s) && Enabled(s, a) && (a.BecomeIdleThread? || a.IdleWait?)
    ensures Scheduled(s.core.sched, Do(s, a).core.sched, Joins(s, a), Switches(s, a))
    ensures Do(s, a).slice == (if Switches(s, a) then 0 else s.slice) && Do(s, a).core.pc == Places(s, a) && Do(s, a).core.semas == s.core.semas
    ensures Do(s, a).core.sched.idleKnown
  {
    hide SystemInv, CoreInv, Block, Scheduled;
    Basics(s);
    SchedOf(s.core);
    if a.IdleWait? {
      IdleWaitKeeps(s);
      BlockSchedules(s.core.sched);
      KnownStays(s);
    } else {
      NotScheduled(s.core.sched, BecomeIdle(s.core.sched));
    }
  }

  lemma KnownStays(s: System)
    requires SystemInv(s) && At(s, IdleLoop) && SomeoneToRun(s.core.sched)
    ensures Block(s.core.sched).idleKnown
  {
    StepEnabled(s);
    hide SystemInv, CoreInv;
  }

  lemma PlainSteps(s: System, a: Action)
    requires SystemInv(s) && Enabled(s, a)
    requires a.InitSema? || a.TryDownSema? || a.InitLock? || a.TryAcquire? || a.SetHolder? || a.Release? || a.Sleep? || a.Insert?
    ensures Scheduled(s.core.sched, Do(s, a).core.sched, Joins(s, a), Switches(s, a))
    ensures Do(s, a).slice == s.slice && !Switches(s, a) && Do(s, a).core.pc == Places(s, a)
  {
    hide SystemInv, Scheduled;
    NotScheduled(s.core.sched, s.core.sched);
    match a {
      case InitSema(_, _) =>
      case TryDownSema(_) =>
      case InitLock(_) =>
      case TryAcquire(_) =>
      case SetHolder =>
      case Release(_) =>
      case Sleep(_) =>
      case Insert =>
    }
  }

  lemma WokenSchedules(s: System)
    requires SystemInv(s) && s.core.semas[SleepList].value > 0
    ensures forall x | x in s.sleepers :: Private(x.t) in s.core.semas
    ensures var b := WokenUp(s.(ticks := s.ticks + 1)).core.sched;
      Scheduled(s.core.sched, b, Due(s.core.sched, s.sleepers, s.ticks + 1) + FirstOf(s.core.semas[SleepList].waiters), false)
    ensures WokenUp(s.(ticks := s.ticks + 1)).slice == s.slice
  {
    hide *;
    Basics(s);
    LocksExist(s);
    PartsOf(s);
    SleepersHaveSemas(s);
    var c, ticks := TryDown(s.core, SleepList), s.ticks + 1;
    TryDownKeeps(s.core, SleepList);
    TryDownIs(s.core, SleepList);
    LaterSleep(s.core.pc, s.core.semas, s.sleepers, s.ticks);
    SleepSame(s.core.pc, s.core.semas, s.sleepers, ticks, c.pc, c.semas);
    SameWhy(s.core.pc, s.core.semas, c.semas);
    WakeSchedules(c, s.sleepers, ticks);
    WakeKeepsCore(c, s.sleepers, ticks);
    WakeSleeps(c, s.sleepers, ticks);
    var c2 := WakeExpired(c, s.sleepers, ticks).0;
    UpEnabled(c2, SleepList);
    CanUpIs(c2, SleepList);
    UpSchedules(c2, SleepList);
    WokenUpIs(s.(ticks := ticks));
    ScheduledThen(s.core.sched, c2.sched, Up(c2, SleepList).sched, Due(s.core.sched, s.sleepers, ticks), FirstOf(c2.semas[SleepList].waiters), false);
  }

  lemma SameYields(b: Sched, b': Sched)
    requires b'.current == b.current && b'.idleThread == b.idleThread && b'.idleKnown == b.idleKnown
    ensures Yields(b') == Yields(b)
  {
  }

  lemma WokenKnown(s: System)
    requires SystemInv(s) && s.core.semas[SleepList].value > 0
    ensures forall x | x in s.sleepers :: Private(x.t) in s.core.semas
    ensures WokenUp(s.(ticks := s.ticks + 1)).core.sched.idleKnown == s.core.sched.idleKnown
  {
    hide *;
    Basics(s);
    LocksExist(s);
    SleepersHaveSemas(s);
    var c, ticks := TryDown(s.core, SleepList), s.ticks + 1;
    TryDownKeeps(s.core, SleepList);
    TryDownIs(s.core, SleepList);
    WakeKeepsCore(c, s.sleepers, ticks);
    WakeKnown(c, s.sleepers, ticks);
    var c2 := WakeExpired(c, s.sleepers, ticks).0;
    UpEnabled(c2, SleepList);
    CanUpIs(c2, SleepList);
    UpKnown(c2, SleepList);
    WokenUpIs(s.(ticks := ticks));
  }

  lemma UpKnown(c: Core, x: Sid)
    requires CanUp(c, x)
    ensures Up(c, x).sched.idleKnown == c.sched.idleKnown
  {
  }

  lemma {:induction false} WakeKnown(c: Core, q: seq<Sleeper>, ticks: int)
    requires CanWake(c, q, ticks)
    ensures WakeExpired(c, q, ticks).0.sched.idleKnown == c.sched.idleKnown
    decreases |q|
  {
    if q != [] && q[0].deadline <= ticks {
      UpKnown(c, Private(q[0].t));
      WakeKnown(Up(c, Private(q[0].t)), q[1..], ticks);
    }
  }

  lemma TickStep(s: System, a: Action)
    requires SystemInv(s) && Enabled(s, a) && a.Tick?
    ensures Scheduled(s.core.sched, Do(s, a).core.sched, Joins(s, a), Switches(s, a))
    ensures Do(s, a).slice == (if Switches(s, a) then 0 else s.slice + 1) && Do(s, a).core.pc == Places(s, a)
  {
    hide SystemInv, CoreInv, WokenUp, YieldCpu, Do, Enabled, Scheduled, Due, Yields, FirstOf;
    Basics(s);
    LocksExist(s);
    TickIs(s);
    TickKeeps(s);
    var b, s1 := s.core.sched, s.(ticks := s.ticks + 1);
    var woken := if s.core.semas[SleepList].value > 0 then Due(b, s.sleepers, s.ticks + 1) + FirstOf(s.core.semas[SleepList].waiters) else [];
    var s2 := if s.core.semas[SleepList].value > 0 then SleepersHaveSemas(s); WokenUp(s1) else s1;
    assert SystemInv(s2) && Scheduled(b, s2.core.sched, woken, false) && Yields(s2.core.sched) == Yields(b) && s2.slice == s.slice by {
      if s.core.semas[SleepList].value > 0 {
        WokenUpKeeps(s);
        WokenSchedules(s);
        WokenKnown(s);
        ScheduledSame(b, s2.core.sched, woken);
      } else {
        LaterKeeps(s);
        NotScheduled(b, b);
      }
      SameYields(b, s2.core.sched);
    }
    Basics(s2);
    if s.slice + 1 >= TIME_SLICE {
      SchedOf(s2.core);
      YieldSchedules(s2.core.sched);
      YieldCpuIs(s2.core);
      ScheduledThen(b, s2.core.sched, Yield(s2.core.sched), woken, Yields(s2.core.sched), true);
    } else {
      assert woken + [] == woken;
    }
  }

  lemma YieldCpuIs(c: Core)
    requires Cur(c) in c.sched.status
    ensures YieldCpu(c).sched == Yield(c.sched)
  {
  }

  lemma ScheduledSame(b: Sched, b': Sched, joins: seq<Tid>)
    requires Scheduled(b, b', joins, false)
    ensures b'.current == b.current && b'.idleThread == b.idleThread
  {
  }

  // ----- The laws ---------------------------------------------------------------------------------

  /** What a step does to the ready list, to the processor and to the time slice, and where it leaves the
      threads. */
  lemma StepSchedules(s: System, a: Action)
    requires SystemInv(s) && Enabled(s, a)
    ensures Me(s) in s.core.pc
    ensures Scheduled(s.core.sched, Do(s, a).core.sched, Joins(s, a), Switches(s, a))
    ensures Do(s, a).slice == (if Switches(s, a) then 0 else if a.Tick? then s.slice + 1 else s.slice)
    ensures Do(s, a).core.pc == Places(s, a) && (a.BecomeIdleThread? ==> Do(s, a).core.sched.idleKnown)
  {
    hide SystemInv, CoreInv, Do, Scheduled, Joins, Switches, Places, Goes;
    Basics(s);
    if Aim(s, a).Some? {
      TestStep(s, a);
    } else if Raised(s, a).Some? {
      UpStep(s, a);
    } else if a.YieldNow? {
      YieldStep(s, a);
    } else if a.ExitNow? {
      ExitStep(s, a);
    } else if a.Spawn? || a.Launch? {
      CreateSteps(s, a);
    } else if a.BecomeIdleThread? || a.IdleWait? {
      IdleSteps(s, a);
    } else if a.Tick? {
      TickStep(s, a);
    } else {
      PlainSteps(s, a);
    }
  }

  /** The semaphore that the step downs without waiting for it. */
  function Tries(a: Action): Option<Sid> {
    match a
    case TryDownSema(id) => Some(Plain(id))
    case TryAcquire(l) => Some(OfLock(l))
    case Tick => Some(SleepList)
    case _ => None
  }

  predicate Ups(s: System, a: Action, x: Sid)
    requires Me(s) in s.core.pc
  {
    Raised(s, a) == Some(x) || (a.Tick? && x == SleepList && Value(s.core, x) > 0)
  }

  predicate Downs(s: System, a: Action, x: Sid)
    requires Me(s) in s.core.pc
  {
    (Aim(s, a) == Some(x) || Tries(a) == Some(x)) && Value(s.core, x) > 0
  }

  function RestOf(q: seq<Tid>): seq<Tid> {
    if q == [] then [] else q[1..]
  }

  /** A semaphore after a step that may up it, down it, or make this thread wait for it. */
  function SemaAfter(sema: Sema, ups: bool, downs: bool, waits: seq<Tid>): Sema
    requires downs ==> sema.value > 0
  {
    Sema(sema.value + One(ups) - One(downs), (if ups then RestOf(sema.waiters) else sema.waiters) + waits,
         sema.initial, sema.ups + One(ups), sema.downs + One(downs))
  }

  /** Those that wait for the semaphore from this step on. */
  function Waits(s: System, a: Action, x: Sid): seq<Tid>
    requires Me(s) in s.core.pc
  {
    if Aim(s, a) == Some(x) && Value(s.core, x) == 0 then [Me(s)] else []
  }

  predicate SemaStep(s: System, a: Action, s': System, x: Sid)
    requires Me(s) in s.core.pc && x in s.core.semas
  {
    x in s'.core.semas && s'.core.semas[x] == SemaAfter(s.core.semas[x], Ups(s, a, x), Downs(s, a, x), Waits(s, a, x))
  }

  lemma SemaStays(s: System, a: Action, s': System, x: Sid)
    requires Me(s) in s.core.pc && x in s.core.semas && x in s'.core.semas && s'.core.semas[x] == s.core.semas[x]
    requires Raised(s, a) != Some(x) && Aim(s, a) != Some(x) && (Tries(a) == Some(x) ==> s.core.semas[x].value == 0)
    ensures SemaStep(s, a, s', x)
  {
    assert s.core.semas[x].waiters + [] == s.core.semas[x].waiters;
  }

  lemma UpSemas(c: Core, x: Sid)
    requires CanUp(c, x)
    ensures x in c.semas
    ensures var sema := c.semas[x];
      Up(c, x).semas == c.semas[x := sema.(waiters := RestOf(sema.waiters), value := sema.value + 1, ups := sema.ups + 1)]
  {
  }

  lemma TestSemas(s: System, a: Action, x: Sid)
    requires SystemInv(s) && Enabled(s, a) && Aim(s, a).Some? && x in s.core.semas
    ensures Me(s) in s.core.pc && SemaStep(s, a, Do(s, a), x)
  {
    hide SystemInv, CoreInv, Do, Enabled, Tested, MayTest, Block, Reason;
    Basics(s);
    DoTests(s, a);
    TestedParts(s, Aim(s, a).value, Reason(s, a));
    assert s.core.semas[x].waiters + [] == s.core.semas[x].waiters;
  }

  lemma RaiseSemas(s: System, a: Action, x: Sid)
    requires SystemInv(s) && Enabled(s, a) && Raised(s, a).Some? && x in s.core.semas
    ensures Me(s) in s.core.pc && SemaStep(s, a, Do(s, a), x)
  {
    hide SystemInv, CoreInv, Do, Enabled, Up, CanUp, Goes;
    Basics(s);
    DoUps(s, a);
    UpSemas(s.core, Raised(s, a).value);
    assert s.core.semas[x].waiters + [] == s.core.semas[x].waiters;
    assert RestOf(s.core.semas[x].waiters) + [] == RestOf(s.core.semas[x].waiters);
  }

  lemma WokenSemas(s: System, x: Sid)
    requires SystemInv(s) && s.core.semas[SleepList].value > 0 && x in s.core.semas && !x.Private?
    ensures forall y | y in s.sleepers :: Private(y.t) in s.core.semas
    ensures var (sema, semas') := (s.core.semas[x], WokenUp(s.(ticks := s.ticks + 1)).core.semas);
      && x in semas'
      && semas'[x] == if x == SleepList then sema.(waiters := RestOf(sema.waiters), ups := sema.ups + 1, downs := sema.downs + 1) else sema
  {
    hide *;
    Basics(s);
    LocksExist(s);
    PartsOf(s);
    SleepersHaveSemas(s);
    var c, ticks := TryDown(s.core, SleepList), s.ticks + 1;
    TryDownKeeps(s.core, SleepList);
    TryDownIs(s.core, SleepList);
    LaterSleep(s.core.pc, s.core.semas, s.sleepers, s.ticks);
    SleepSame(s.core.pc, s.core.semas, s.sleepers, ticks, c.pc, c.semas);
    WakeKeepsCore(c, s.sleepers, ticks);
    WakeSleeps(c, s.sleepers, ticks);
    var c2 := WakeExpired(c, s.sleepers, ticks).0;
    UpEnabled(c2, SleepList);
    CanUpIs(c2, SleepList);
    UpSemas(c2, SleepList);
    WokenUpIs(s.(ticks := ticks));
  }

  lemma TickSemas(s: System, a: Action, x: Sid)
    requires SystemInv(s) && Enabled(s, a) && a.Tick? && x in s.core.semas && !x.Private?
    ensures Me(s) in s.core.pc && SemaStep(s, a, Do(s, a), x)
  {
    hide SystemInv, CoreInv, WokenUp, YieldCpu, Do, Enabled;
    Basics(s);
    LocksExist(s);
    TickIs(s);
    if s.core.semas[SleepList].value > 0 {
      WokenSemas(s, x);
      WokenUpKeeps(s);
      Basics(WokenUp(s.(ticks := s.ticks + 1)));
      YieldCpuSemas(WokenUp(s.(ticks := s.ticks + 1)).core);
    }
    YieldCpuSemas(s.core);
    assert s.core.semas[x].waiters + [] == s.core.semas[x].waiters;
    assert RestOf(s.core.semas[x].waiters) + [] == RestOf(s.core.semas[x].waiters);
  }

  lemma YieldCpuSemas(c: Core)
    requires Cur(c) in c.sched.status
    ensures YieldCpu(c).semas == c.semas
  {
  }

  lemma PlainSemas(s: System, a: Action, x: Sid)
    requires SystemInv(s) && Enabled(s, a) && x in s.core.semas && !x.Private?
    requires a.InitSema? || a.TryDownSema? || a.InitLock? || a.TryAcquire? || a.SetHolder? || a.Release? || a.Sleep? || a.Insert?
    ensures Me(s) in s.core.pc && SemaStep(s, a, Do(s, a), x)
  {
    hide *;
    Basics(s);
    PlainAims(s, a);
    if Tries(a) == Some(x) && s.core.semas[x].value > 0 {
      TrySemas(s, a, x);
      SemaTried(s, a, Do(s, a), x);
    } else {
      StaySemas(s, a, x);
      SemaStays(s, a, Do(s, a), x);
    }
  }

  lemma PlainAims(s: System, a: Action)
    requires Me(s) in s.core.pc
    requires a.InitSema? || a.TryDownSema? || a.InitLock? || a.TryAcquire? || a.SetHolder? || a.Release? || a.Sleep? || a.Insert?
    ensures Aim(s, a).None? && Raised(s, a).None? && !a.Tick?
  {
  }

  lemma TrySemas(s: System, a: Action, x: Sid)
    requires SystemInv(s) && Enabled(s, a) && x in s.core.semas && s.core.semas[x].value > 0
    requires !a.Tick? && Tries(a) == Some(x)
    ensures Me(s) in s.core.pc
    ensures var (sema, semas') := (s.core.semas[x], Do(s, a).core.semas);
      x in semas' && semas'[x] == sema.(value := sema.value - 1, downs := sema.downs + 1)
  {
    hide SystemInv, MayTest;
  }

  lemma StaySemas(s: System, a: Action, x: Sid)
    requires SystemInv(s) && Enabled(s, a) && x in s.core.semas && !x.Private?
    requires a.InitSema? || a.TryDownSema? || a.InitLock? || a.TryAcquire? || a.SetHolder? || a.Release? || a.Sleep? || a.Insert?
    requires Tries(a) == Some(x) ==> s.core.semas[x].value == 0
    ensures Me(s) in s.core.pc && x in Do(s, a).core.semas && Do(s, a).core.semas[x] == s.core.semas[x]
  {
    hide SystemInv, MayTest, InsertSleeper;
    match a {
      case InitSema(_, _) =>
      case TryDownSema(_) =>
      case InitLock(_) =>
      case TryAcquire(_) =>
      case SetHolder =>
      case Release(_) =>
      case Sleep(_) =>
      case Insert =>
    }
  }

  lemma SemaTried(s: System, a: Action, s': System, x: Sid)
    requires Me(s) in s.core.pc && x in s.core.semas && s.core.semas[x].value > 0 && x in s'.core.semas
    requires !a.Tick? && Tries(a) == Some(x)
    requires s'.core.semas[x] == s.core.semas[x].(value := s.core.semas[x].value - 1, downs := s.core.semas[x].downs + 1)
    ensures SemaStep(s, a, s', x)
  {
    assert s.core.semas[x].waiters + [] == s.core.semas[x].waiters;
  }

  /** What a step does to a semaphore that is not one on a sleeper's stack: its value, its wait list and its
      history change by at most one up, one down, and this thread's wait. */
  lemma StepSemas(s: System, a: Action, x: Sid)
    requires SystemInv(s) && Enabled(s, a) && x in s.core.semas && !x.Private?
    ensures Me(s) in s.core.pc && SemaStep(s, a, Do(s, a), x)
  {
    hide SystemInv, CoreInv, Do, SemaStep;
    Basics(s);
    if Aim(s, a).Some? {
      TestSemas(s, a, x);
    } else if Raised(s, a).Some? {
      RaiseSemas(s, a, x);
    } else if a.Tick? {
      TickSemas(s, a, x);
    } else if a.YieldNow? {
      YieldStep(s, a);
      SemaStays(s, a, Do(s, a), x);
    } else if a.ExitNow? {
      ExitStep(s, a);
      SemaStays(s, a, Do(s, a), x);
    } else if a.Spawn? || a.Launch? {
      CreateSteps(s, a);
      SemaStays(s, a, Do(s, a), x);
    } else if a.BecomeIdleThread? || a.IdleWait? {
      IdleSteps(s, a);
      SemaStays(s, a, Do(s, a), x);
    } else {
      PlainSemas(s, a, x);
    }
  }

  /** New semaphores begin with the value that they are given and with nobody waiting, locks as free. */
  lemma NewSemas(s: System, a: Action)
    requires SystemInv(s) && Enabled(s, a)
    ensures var semas' := Do(s, a).core.semas;
      && (a.InitSema? ==> Plain(a.id) in semas' && semas'[Plain(a.id)] == Sema(a.value, [], a.value, 0, 0))
      && (a.InitLock? ==> OfLock(a.l) in semas' && semas'[OfLock(a.l)] == Sema(1, [], 1, 0, 0))
  {
    if a.InitSema? || a.InitLock? {
      hide SystemInv;
    }
  }

  function Holders(s: System, a: Action): map<nat, Tid>
    requires Me(s) in s.core.pc
  {
    var p := s.core.pc[Me(s)];
    if a.SetHolder? && p.SettingHolder? then s.holder[p.l := Me(s)]
    else if a.Release? then s.holder - {a.l}
    else s.holder
  }

  lemma StepHolders(s: System, a: Action)
    requires SystemInv(s) && Enabled(s, a)
    ensures Me(s) in s.core.pc && Do(s, a).holder == Holders(s, a)
  {
    hide SystemInv, CoreInv, Tested, Upped, Ticked, Test, Up, Schedule, YieldCpu, ExitThread, CreateThread, LaunchThread, IdleBegins, IdleBlocks, MayTest, SetPc, InsertSleeper;
    Basics(s);
    if Aim(s, a).Some? {
      DoTests(s, a);
      TestedParts(s, Aim(s, a).value, Reason(s, a));
    } else if Raised(s, a).Some? {
      DoUps(s, a);
    } else if a.Tick? {
      TickIs(s);
      TickKeeps(s);
    }
  }
}
