/** Runs of the kernel: threads that use semaphores, locks and timer_sleep (threads/synch.c,
    threads/thread.c, devices/timer.c), interleaved in every way with timer interrupts. A step is a
    section that runs with interrupts off, or a piece of code that no other code depends on. */
module KernelRuns {
  import opened Scheduler
  import opened Semaphores

  /** struct sleeping_thread: who sleeps, and until when. */
  datatype Sleeper = Sleeper(t: Tid, deadline: int)

  /** holder says which thread each held lock belongs to; slice counts the ticks since the last
      switch. While a thread is Inserting, the list of sleepers is half linked. */
  datatype System = System(core: Core, holder: map<nat, Tid>, sleepers: seq<Sleeper>, ticks: int, slice: nat)

  const TIME_SLICE: nat := 4

  datatype Action =
    | InitSema(id: nat, value: nat) | Down(id: nat) | TryDownSema(id: nat) | UpSema(id: nat)
    | InitLock(l: nat) | Acquire(l: nat) | TryAcquire(l: nat) | SetHolder | Release(l: nat) | FinishRelease
    | Resume
    | YieldNow | ExitNow | Spawn(t: Tid) | Launch | BecomeIdleThread | IdleWait
    | Sleep(n: int) | SleepDown | Insert | FinishInsert | SleepWait
    | Tick

  function Me(s: System): Tid {
    s.core.sched.current
  }

  predicate InCode(s: System) {
    Me(s) in s.core.pc && s.core.pc[Me(s)].Free?
  }

  predicate At(s: System, p: Pc) {
    Me(s) in s.core.pc && s.core.pc[Me(s)] == p
  }

  /** lock_held_by_current_thread. */
  predicate Holds(s: System, l: nat) {
    l in s.holder && s.holder[l] == Me(s)
  }

  /** What the program that runs may do next: the assertions of the operations are its duty. A timer
      interrupt may come whenever interrupts are on, that is unless the thread is inside sema_down. */
  predicate Enabled(s: System, a: Action) {
    && Me(s) in s.core.pc
    && var p := s.core.pc[Me(s)];
    match a
    case InitSema(id, v) => p.Free? && Plain(id) !in s.core.semas
    case Down(id) => p.Free? && Plain(id) in s.core.semas
    case TryDownSema(id) => p.Free? && Plain(id) in s.core.semas
    case UpSema(id) => p.Free? && Plain(id) in s.core.semas
    case InitLock(l) => p.Free? && OfLock(l) !in s.core.semas
    case Acquire(l) => p.Free? && OfLock(l) in s.core.semas && !Holds(s, l)
    case TryAcquire(l) => p.Free? && OfLock(l) in s.core.semas && !Holds(s, l)
    case SetHolder => p.SettingHolder?
    case Release(l) => p.Free? && OfLock(l) in s.core.semas && Holds(s, l)
    case FinishRelease => p.Releasing?
    case Resume => p.Testing?
    case YieldNow => p.Free?
    case ExitNow => p.Free?
    case Spawn(t) => p.Free? && t !in s.core.sched.status
    case Launch => p.Creating?
    case BecomeIdleThread => p.IdleStart?
    case IdleWait => p.IdleLoop?
    case Sleep(n) => p.Free?
    case SleepDown => p.Starting?
    case Insert => p.Inserting?
    case FinishInsert => p.Inserted?
    case SleepWait => p.AboutToWait?
    case Tick => !p.Testing?
  }

  /** Where a thread goes on after sema_down. */
  function AfterDown(why: Why): (p: Pc)
    ensures Ordinary(p)
  {
    match why
    case ForCaller => Free
    case ForLock(l) => SettingHolder(l)
    case ToInsert(d) => Inserting(d)
    case ToWake(d) => Free
  }

  /** list_insert_ordered with has_less_sleep_time: before the first that has a later deadline. */
  function InsertSleeper(q: seq<Sleeper>, x: Sleeper): seq<Sleeper> {
    if q == [] || x.deadline < q[0].deadline then [x] + q
    else [q[0]] + InsertSleeper(q[1..], x)
  }

  /** The loop of try_to_wake_up_threads. */
  predicate CanWake(c: Core, q: seq<Sleeper>, ticks: int)
    decreases |q|
  {
    q != [] && q[0].deadline <= ticks ==>
      CanUp(c, Private(q[0].t)) && CanWake(Up(c, Private(q[0].t)), q[1..], ticks)
  }

  predicate CanUp(c: Core, s: Sid) {
    s in c.semas && (c.semas[s].waiters != [] ==> IsBlocked(c.sched, c.semas[s].waiters[0]))
  }

  function WakeExpired(c: Core, q: seq<Sleeper>, ticks: int): (r: (Core, seq<Sleeper>))
    requires CanWake(c, q, ticks)
    decreases |q|
  {
    if q != [] && q[0].deadline <= ticks then WakeExpired(Up(c, Private(q[0].t)), q[1..], ticks) else (c, q)
  }

  // ----- Invariants -------------------------------------------------------------------------------

  /** The part of a thread's code that the semaphore s guards. */
  predicate InCritical(p: Pc, s: Sid) {
    match s
    case OfLock(l) => p == SettingHolder(l) || p == Releasing(l)
    case SleepList => p.Inserting? || p.Inserted?
    case Plain(_) => false
    case Private(_) => false
  }

  ghost function Critical(pc: map<Tid, Pc>, s: Sid): set<Tid> {
    set t | t in pc && InCritical(pc[t], s)
  }

  function Held(holder: map<nat, Tid>, s: Sid): nat {
    if s.OfLock? && s.lock in holder then 1 else 0
  }

  predicate IsMutex(s: Sid) {
    s.OfLock? || s.SleepList?
  }

  function One(b: bool): nat {
    if b then 1 else 0
  }

  /** The value of a semaphore that is used as a lock is one less the threads inside. */
  ghost predicate MutexInv(pc: map<Tid, Pc>, holder: map<nat, Tid>, semas: map<Sid, Sema>) {
    && SleepList in semas
    && (forall s | s in semas && IsMutex(s) :: semas[s].value + |Critical(pc, s)| + Held(holder, s) == 1)
    && (forall l | l in holder :: OfLock(l) in semas)
  }

  /** A thread inside sema_down is there for the operation that the semaphore is for. */
  predicate WhyOk(t: Tid, p: Pc, semas: map<Sid, Sema>) {
    && (p.Testing? ==>
          match p.why
          case ForCaller => p.s.Plain?
          case ForLock(l) => p.s == OfLock(l)
          case ToInsert(_) => p.s == SleepList
          case ToWake(_) => p.s == Private(t))
    && (p.SettingHolder? || p.Releasing? ==> OfLock(p.l) in semas)
  }

  ghost predicate WhyInv(pc: map<Tid, Pc>, semas: map<Sid, Sema>) {
    forall t | t in pc :: WhyOk(t, pc[t], semas)
  }

  /** From the moment that a thread has linked itself into the list until timer_sleep returns. */
  predicate Listed(p: Pc, d: int) {
    p == Inserted(d) || p == AboutToWait(d) || (p.Testing? && p.why == ToWake(d))
  }

  predicate ListedIn(pc: map<Tid, Pc>, t: Tid, d: int) {
    t in pc && Listed(pc[t], d)
  }

  predicate SortedSleepers(q: seq<Sleeper>) {
    forall i, j :: 0 <= i < j < |q| ==> q[i].deadline <= q[j].deadline && q[i].t != q[j].t
  }

  /** The list is sorted by deadline, and it holds exactly the sleeping threads that have not been
      woken; the others have reached their deadline and been given a unit of their semaphore. */
  ghost predicate SleepInv(pc: map<Tid, Pc>, semas: map<Sid, Sema>, q: seq<Sleeper>, ticks: int) {
    && SortedSleepers(q)
    && (forall x | x in q :: ListedIn(pc, x.t, x.deadline))
    && (forall t, d | ListedIn(pc, t, d) ::
          && Private(t) in semas
          && (if Sleeper(t, d) in q then semas[Private(t)].value == 0
              else ticks >= d && semas[Private(t)].value == 1))
  }

  ghost predicate SystemInv(s: System) {
    && CoreInv(s.core)
    && MutexInv(s.core.pc, s.holder, s.core.semas)
    && WhyInv(s.core.pc, s.core.semas)
    && SleepInv(s.core.pc, s.core.semas, s.sleepers, s.ticks)
    && s.slice < TIME_SLICE
  }

  // ----- Steps ------------------------------------------------------------------------------------

  /** One round of the loop of sema_down; if the thread blocks, a new time slice starts. */
  function Tested(s: System, x: Sid, why: Why): System
    requires CoreInv(s.core) && MayTest(s.core, x)
  {
    TestKeeps(s.core, x, why, AfterDown(why));
    s.(core := Test(s.core, x, why, AfterDown(why)), slice := if s.core.semas[x].value == 0 then 0 else s.slice)
  }

  function Upped(s: System, x: Sid, p: Pc): System
    requires CoreInv(s.core) && x in s.core.semas
  {
    UpEnabled(s.core, x);
    s.(core := SetPc(Up(s.core, x), p))
  }

  function Moved(s: System, p: Pc): System {
    s.(core := SetPc(s.core, p))
  }

  /** try_to_wake_up_threads, when nobody is inside the list's semaphore. */
  function WokenUp(s: System): System
    requires CoreInv(s.core) && SleepList in s.core.semas && s.core.semas[SleepList].value > 0
    requires forall x | x in s.sleepers :: Private(x.t) in s.core.semas
  {
    TryDownKeeps(s.core, SleepList);
    WakeKeepsCore(TryDown(s.core, SleepList), s.sleepers, s.ticks);
    var (c, q) := WakeExpired(TryDown(s.core, SleepList), s.sleepers, s.ticks);
    UpEnabled(c, SleepList);
    s.(core := Up(c, SleepList), sleepers := q)
  }

  lemma {:induction false} WakeKeepsCore(c: Core, q: seq<Sleeper>, ticks: int)
    requires CoreInv(c) && forall x | x in q :: Private(x.t) in c.semas
    ensures CanWake(c, q, ticks)
    ensures var c' := WakeExpired(c, q, ticks).0;
      CoreInv(c') && c'.pc == c.pc && c'.semas.Keys == c.semas.Keys && c'.sched.current == c.sched.current
    decreases |q|
  {
    hide CoreInv;
    if q != [] && q[0].deadline <= ticks {
      assert q[0] in q;
      UpEnabled(c, Private(q[0].t));
      UpKeeps(c, Private(q[0].t));
      WakeKeepsCore(Up(c, Private(q[0].t)), q[1..], ticks);
    }
  }

  /** timer_interrupt, and the yield on return from the interrupt when the time slice is over. */
  function Ticked(s: System): System
    requires SystemInv(s)
  {
    var s1 := s.(ticks := s.ticks + 1);
    var s2 := if s.core.semas[SleepList].value > 0 then SleepersHaveSemas(s); WokenUp(s1) else s1;
    if s.slice + 1 < TIME_SLICE then s2.(slice := s.slice + 1)
    else
      TickKeepsCurrent(s);
      s2.(core := YieldCpu(s2.core), slice := 0)
  }

  lemma SleepersHaveSemas(s: System)
    requires SystemInv(s)
    ensures forall x | x in s.sleepers :: Private(x.t) in s.core.semas
  {
  }

  lemma TickKeepsCurrent(s: System)
    requires SystemInv(s)
    ensures Me(s) in s.core.sched.status
    ensures s.core.semas[SleepList].value > 0 ==>
      (forall x | x in s.sleepers :: Private(x.t) in s.core.semas)
      && Me(WokenUp(s.(ticks := s.ticks + 1))) in WokenUp(s.(ticks := s.ticks + 1)).core.sched.status
  {
    SleepersHaveSemas(s);
    if s.core.semas[SleepList].value > 0 {
      TryDownKeeps(s.core, SleepList);
      WakeKeepsCore(TryDown(s.core, SleepList), s.sleepers, s.ticks + 1);
      UpKeeps(WakeExpired(TryDown(s.core, SleepList), s.sleepers, s.ticks + 1).0, SleepList);
    }
  }

  function Do(s: System, a: Action): System
    requires SystemInv(s) && Enabled(s, a)
  {
    hide SystemInv, CoreInv, MutexInv, WhyInv, SleepInv, MayTest, SomeoneToRun;
    StepEnabled(s);
    var c, p := s.core, s.core.pc[Me(s)];
    match a
    case InitSema(id, v) => s.(core := Init(c, Plain(id), v))
    case Down(id) => Tested(s, Plain(id), ForCaller)
    case TryDownSema(id) => if c.semas[Plain(id)].value > 0 then s.(core := TryDown(c, Plain(id))) else s
    case UpSema(id) => Upped(s, Plain(id), Free)
    case InitLock(l) => s.(core := Init(c, OfLock(l), 1))
    case Acquire(l) => Tested(s, OfLock(l), ForLock(l))
    case TryAcquire(l) =>
      if c.semas[OfLock(l)].value > 0 then s.(core := SetPc(TryDown(c, OfLock(l)), SettingHolder(l))) else s
    case SetHolder => Moved(s, Free).(holder := s.holder[p.l := Me(s)])
    case Release(l) => Moved(s, Releasing(l)).(holder := s.holder - {l})
    case FinishRelease => Upped(s, OfLock(p.l), Free)
    case Resume => Tested(s, p.s, p.why)
    case YieldNow => s.(core := YieldCpu(c), slice := 0)
    case ExitNow => s.(core := ExitThread(c), slice := 0)
    case Spawn(t) => s.(core := CreateThread(c, t))
    case Launch => s.(core := LaunchThread(c))
    case BecomeIdleThread => s.(core := IdleBegins(c))
    case IdleWait => s.(core := IdleBlocks(c), slice := 0)
    case Sleep(n) => if n < 0 then s else Moved(s, Starting(s.ticks + n))
    case SleepDown => Tested(s, SleepList, ToInsert(p.deadline))
    case Insert =>
      s.(core := SetPc(Init(c, Private(Me(s)), 0), Inserted(p.deadline)),
         sleepers := InsertSleeper(s.sleepers, Sleeper(Me(s), p.deadline)))
    case FinishInsert => Upped(s, SleepList, AboutToWait(p.deadline))
    case SleepWait => Tested(s, Private(Me(s)), ToWake(p.deadline))
    case Tick => Ticked(s)
  }

  /** What makes the steps well defined: who runs and which semaphores there are. */
  lemma StepEnabled(s: System)
    requires SystemInv(s) && Me(s) in s.core.pc
    ensures var p := s.core.pc[Me(s)];
      && Me(s) in s.core.sched.status && !p.Born?
      && (p.IdleLoop? || p.IdleStart? <==> Me(s) == s.core.sched.idleThread)
      && (p.IdleStart? ==> !s.core.sched.idleKnown) && (p.IdleLoop? ==> s.core.sched.idleKnown)
      && (!p.IdleStart? ==> SomeoneToRun(s.core.sched))
      && (p.Testing? ==> MayTest(s.core, p.s))
      && (p.SettingHolder? || p.Releasing? ==> OfLock(p.l) in s.core.semas)
      && (p.Creating? ==> IsBlocked(s.core.sched, p.child))
      && (p.AboutToWait? ==> Private(Me(s)) in s.core.semas)
      && SleepList in s.core.semas && CoreInv(s.core)
      && (Ordinary(p) ==> forall x | x in s.core.semas :: MayTest(s.core, x))
  {
    var p := s.core.pc[Me(s)];
    MyPlace(s.core);
    assert WhyOk(Me(s), p, s.core.semas);
    assert p.AboutToWait? ==> ListedIn(s.core.pc, Me(s), p.deadline);
    hide CoreInv;
  }

  lemma MyPlace(c: Core)
    requires CoreInv(c) && Cur(c) in c.pc
    ensures var p := c.pc[Cur(c)];
      && Cur(c) in c.sched.status && !p.Born?
      && (p.IdleLoop? || p.IdleStart? <==> Cur(c) == c.sched.idleThread)
      && (p.IdleStart? ==> !c.sched.idleKnown) && (p.IdleLoop? ==> c.sched.idleKnown)
      && (!p.IdleStart? ==> SomeoneToRun(c.sched))
      && (p.Testing? ==> p.s in c.semas)
      && (p.Creating? ==> IsBlocked(c.sched, p.child))
  {
    var p := c.pc[Cur(c)];
    CurrentRuns(c);
    if !p.IdleStart? {
      BlockKeeps(c.sched);
    }
    if p.Creating? {
      ChildIsBlocked(c.sched, c.pc, Cur(c), p.child);
    }
  }

  // ----- Mutual exclusion -------------------------------------------------------------------------

  lemma CriticalMoves(pc: map<Tid, Pc>, me: Tid, p: Pc, s: Sid)
    requires me in pc
    ensures |Critical(pc[me := p], s)| + One(InCritical(pc[me], s)) == |Critical(pc, s)| + One(InCritical(p, s))
    ensures InCritical(pc[me], s) ==> |Critical(pc, s)| >= 1
  {
    var a, b := Critical(pc, s), Critical(pc[me := p], s);
    assert a - {me} == b - {me};
    assert me in a <==> InCritical(pc[me], s);
    assert me in b <==> InCritical(p, s);
    assert |a| == |a - {me}| + One(me in a);
    assert |b| == |b - {me}| + One(me in b);
  }

  /** What a step may change is the place of one thread, a value and who holds the lock, so that the
      sum stays. */
  lemma MutexMoves(pc: map<Tid, Pc>, holder: map<nat, Tid>, semas: map<Sid, Sema>, me: Tid, p: Pc,
                   holder': map<nat, Tid>, semas': map<Sid, Sema>)
    requires MutexInv(pc, holder, semas) && me in pc && semas.Keys <= semas'.Keys
    requires forall s | s in semas && IsMutex(s) ::
      semas'[s].value + One(InCritical(p, s)) + Held(holder', s)
      == semas[s].value + One(InCritical(pc[me], s)) + Held(holder, s)
    requires forall s | s in semas' && s !in semas :: !IsMutex(s)
    requires forall l | l in holder' :: OfLock(l) in semas
    ensures MutexInv(pc[me := p], holder', semas')
  {
    hide Critical, InCritical, Held, One;
    forall s | s in semas' && IsMutex(s)
      ensures semas'[s].value + |Critical(pc[me := p], s)| + Held(holder', s) == 1
    {
      CriticalMoves(pc, me, p, s);
    }
  }

  /** Whoever is inside is there alone, and the value is then 0. */
  lemma InsideAlone(pc: map<Tid, Pc>, holder: map<nat, Tid>, semas: map<Sid, Sema>, t: Tid, s: Sid)
    requires MutexInv(pc, holder, semas) && t in pc && s in semas && IsMutex(s) && InCritical(pc[t], s)
    ensures semas[s].value == 0 && Held(holder, s) == 0
    ensures forall u | u in pc && InCritical(pc[u], s) :: u == t
  {
    CriticalMoves(pc, t, Free, s);
    forall u | u in pc && InCritical(pc[u], s)
      ensures u == t
    {
      if u != t {
        CriticalMoves(pc[t := Free], u, Free, s);
      }
    }
  }

  /** Steps after which the same threads are inside. */
  lemma MutexSame(pc: map<Tid, Pc>, holder: map<nat, Tid>, semas: map<Sid, Sema>,
                  pc': map<Tid, Pc>, semas': map<Sid, Sema>)
    requires MutexInv(pc, holder, semas) && semas.Keys <= semas'.Keys
    requires forall t, s :: t in pc' && InCritical(pc'[t], s) <==> t in pc && InCritical(pc[t], s)
    requires forall s | s in semas && IsMutex(s) :: semas'[s].value == semas[s].value
    requires forall s | s in semas' && s !in semas :: !IsMutex(s)
    ensures MutexInv(pc', holder, semas')
  {
    forall s
      ensures Critical(pc', s) == Critical(pc, s)
    {
    }
  }

  // ----- Sleeping ---------------------------------------------------------------------------------

  lemma SleepSame(pc: map<Tid, Pc>, semas: map<Sid, Sema>, q: seq<Sleeper>, ticks: int,
                  pc': map<Tid, Pc>, semas': map<Sid, Sema>)
    requires SleepInv(pc, semas, q, ticks)
    requires forall t, d :: ListedIn(pc', t, d) <==> ListedIn(pc, t, d)
    requires forall t | Private(t) in semas ::
      Private(t) in semas' && semas'[Private(t)].value == semas[Private(t)].value
    ensures SleepInv(pc', semas', q, ticks)
  {
    hide ListedIn, SortedSleepers;
  }

  /** timer_sleep returns when its own semaphore can be downed: not while it is listed, and so not
      before the deadline. */
  lemma SleepReturns(pc: map<Tid, Pc>, semas: map<Sid, Sema>, q: seq<Sleeper>, ticks: int, me: Tid, d: int,
                     semas': map<Sid, Sema>)
    requires SleepInv(pc, semas, q, ticks) && ListedIn(pc, me, d) && semas[Private(me)].value > 0
    requires forall t | Private(t) in semas && t != me ::
      Private(t) in semas' && semas'[Private(t)].value == semas[Private(t)].value
    ensures ticks >= d
    ensures SleepInv(pc[me := Free], semas', q, ticks)
  {
    hide SortedSleepers;
    var pc' := pc[me := Free];
    forall t, e
      ensures ListedIn(pc', t, e) <==> ListedIn(pc, t, e) && t != me
    {
    }
    forall x | x in q
      ensures x.t != me
    {
      OneDeadline(pc, x.t, x.deadline, d);
    }
  }

  lemma OneDeadline(pc: map<Tid, Pc>, t: Tid, d: int, e: int)
    requires ListedIn(pc, t, d)
    ensures ListedIn(pc, t, e) <==> d == e
  {
  }

  lemma {:induction false} InsertSleeperKeeps(q: seq<Sleeper>, x: Sleeper)
    requires SortedSleepers(q) && forall y | y in q :: y.t != x.t
    ensures SortedSleepers(InsertSleeper(q, x))
    ensures forall y :: y in InsertSleeper(q, x) <==> y in q || y == x
  {
    if q != [] && x.deadline >= q[0].deadline {
      assert forall y :: y in q <==> y == q[0] || y in q[1..];
      InsertSleeperKeeps(q[1..], x);
      assert forall y | y in q[1..] :: q[0].deadline <= y.deadline && q[0].t != y.t;
      FirstSleeper(q[0], InsertSleeper(q[1..], x));
    } else {
      if q != [] {
        assert forall y | y in q :: q[0].deadline <= y.deadline;
      }
      FirstSleeper(x, q);
    }
  }

  lemma FirstSleeper(x: Sleeper, q: seq<Sleeper>)
    requires SortedSleepers(q) && forall y | y in q :: x.deadline <= y.deadline && x.t != y.t
    ensures SortedSleepers([x] + q) && forall y :: y in [x] + q <==> y in q || y == x
  {
  }

  lemma SleepInserts(pc: map<Tid, Pc>, semas: map<Sid, Sema>, q: seq<Sleeper>, ticks: int, me: Tid, d: int,
                     semas': map<Sid, Sema>)
    requires SleepInv(pc, semas, q, ticks) && me in pc && pc[me] == Inserting(d)
    requires Private(me) in semas' && semas'[Private(me)].value == 0
    requires forall t | Private(t) in semas && t != me ::
      Private(t) in semas' && semas'[Private(t)].value == semas[Private(t)].value
    ensures SleepInv(pc[me := Inserted(d)], semas', InsertSleeper(q, Sleeper(me, d)), ticks)
  {
    var pc', q' := pc[me := Inserted(d)], InsertSleeper(q, Sleeper(me, d));
    assert !exists e :: ListedIn(pc, me, e);
    InsertSleeperKeeps(q, Sleeper(me, d));
    hide SortedSleepers, InsertSleeper;
    forall t, e
      ensures ListedIn(pc', t, e) <==> ListedIn(pc, t, e) || (t == me && e == d)
    {
    }
  }

  /** The wake-up loop: whoever it wakes has reached the deadline, and it leaves nobody listed whose
      deadline has passed. It ups private semaphores only. */
  lemma {:induction false} WakeSleeps(c: Core, q: seq<Sleeper>, ticks: int)
    requires CoreInv(c) && SleepInv(c.pc, c.semas, q, ticks) && forall x | x in q :: Private(x.t) in c.semas
    ensures CanWake(c, q, ticks)
    ensures var (c', q') := WakeExpired(c, q, ticks);
      && c'.pc == c.pc && c'.semas.Keys == c.semas.Keys
      && SleepInv(c.pc, c'.semas, q', ticks)
      && (forall x | x in q' :: x in q && x.deadline > ticks)
      && (forall s | s in c.semas && !s.Private? :: c'.semas[s] == c.semas[s])
    decreases |q|
  {
    hide CoreInv;
    if q != [] && q[0].deadline <= ticks {
      var s := Private(q[0].t);
      assert q[0] in q;
      UpEnabled(c, s);
      UpKeeps(c, s);
      WakeOne(c.pc, c.semas, q, ticks, Up(c, s).semas);
      hide SleepInv;
      WakeSleeps(Up(c, s), q[1..], ticks);
    } else {
      forall x | x in q
        ensures x.deadline > ticks
      {
        var i :| 0 <= i < |q| && q[i] == x;
        assert i > 0 ==> q[0].deadline <= q[i].deadline;
      }
    }
  }

  lemma WakeOne(pc: map<Tid, Pc>, semas: map<Sid, Sema>, q: seq<Sleeper>, ticks: int, semas': map<Sid, Sema>)
    requires SleepInv(pc, semas, q, ticks) && q != [] && q[0].deadline <= ticks
    requires semas'.Keys == semas.Keys
    requires forall s | s in semas && s != Private(q[0].t) :: semas'[s].value == semas[s].value
    requires Private(q[0].t) in semas ==> semas'[Private(q[0].t)].value == semas[Private(q[0].t)].value + 1
    ensures SleepInv(pc, semas', q[1..], ticks)
  {
    var x, rest := q[0], q[1..];
    assert forall y :: y in q <==> y == x || y in rest;
    assert forall y | y in rest :: y.t != x.t;
    assert ListedIn(pc, x.t, x.deadline);
    forall t, d | ListedIn(pc, t, d)
      ensures Private(t) in semas'
      ensures if Sleeper(t, d) in rest then semas'[Private(t)].value == 0 else ticks >= d && semas'[Private(t)].value == 1
    {
      if t == x.t {
        OneDeadline(pc, t, x.deadline, d);
      }
    }
  }

  // ----- Every step keeps the invariant -----------------------------------------------------------

  predicate Outside(p: Pc) {
    !p.SettingHolder? && !p.Releasing? && !p.Inserting? && !p.Inserted?
  }

  lemma OutsideIsNotCritical(p: Pc)
    requires Outside(p)
    ensures forall s :: !InCritical(p, s)
  {
  }

  lemma WhyMoves(pc: map<Tid, Pc>, semas: map<Sid, Sema>, me: Tid, p: Pc, semas': map<Sid, Sema>)
    requires WhyInv(pc, semas) && semas.Keys <= semas'.Keys && WhyOk(me, p, semas')
    ensures WhyInv(pc[me := p], semas')
  {
  }

  lemma ListedMoves(pc: map<Tid, Pc>, me: Tid, p: Pc)
    requires me in pc && forall d :: Listed(p, d) <==> Listed(pc[me], d)
    ensures forall t, d :: ListedIn(pc[me := p], t, d) <==> ListedIn(pc, t, d)
  {
  }

  /** A round of the loop of sema_down, called or resumed for the operation that x is for. */
  lemma TestedKeeps(s: System, x: Sid, why: Why)
    requires SystemInv(s) && MayTest(s.core, x) && WhyOk(Me(s), Testing(x, why), s.core.semas)
    requires var p := s.core.pc[Me(s)]; Outside(p) && forall d :: Listed(p, d) <==> why == ToWake(d)
    ensures CoreInv(s.core) && SystemInv(Tested(s, x, why))
    ensures why.ToWake? && s.core.semas[x].value > 0 ==> s.ticks >= why.deadline
  {
    TestKeeps(s.core, x, why, AfterDown(why));
    if s.core.semas[x].value == 0 {
      BlockedKeeps(s, x, why);
    } else {
      DownedKeeps(s, x, why);
    }
  }

  lemma BlockedKeeps(s: System, x: Sid, why: Why)
    requires SystemInv(s) && MayTest(s.core, x) && WhyOk(Me(s), Testing(x, why), s.core.semas)
    requires var p := s.core.pc[Me(s)]; Outside(p) && forall d :: Listed(p, d) <==> why == ToWake(d)
    requires s.core.semas[x].value == 0
    ensures CoreInv(s.core) && SystemInv(Tested(s, x, why))
  {
    hide CoreInv, MutexInv, WhyInv, SleepInv, WhyOk, Listed, InCritical, Held, Outside;
    TestKeeps(s.core, x, why, AfterDown(why));
    var me, p, pc, semas := Me(s), Testing(x, why), s.core.pc, s.core.semas;
    var semas' := Tested(s, x, why).core.semas;
    assert Outside(p) by {
      TestingIsOutside(x, why);
    }
    OutsideIsNotCritical(p);
    OutsideIsNotCritical(pc[me]);
    LocksExist(s);
    MutexMoves(pc, s.holder, semas, me, p, s.holder, semas');
    SameKeysWhy(me, p, semas, semas');
    WhyMoves(pc, semas, me, p, semas');
    ListedWhileTesting(x, why);
    ListedMoves(pc, me, p);
    SleepSame(pc, semas, s.sleepers, s.ticks, pc[me := p], semas');
  }

  lemma LocksExist(s: System)
    requires SystemInv(s)
    ensures SleepList in s.core.semas && forall l | l in s.holder :: OfLock(l) in s.core.semas
  {
  }

  lemma TestingIsOutside(x: Sid, why: Why)
    ensures Outside(Testing(x, why))
  {
  }

  lemma ListedWhileTesting(x: Sid, why: Why)
    ensures forall d :: Listed(Testing(x, why), d) <==> why == ToWake(d)
  {
  }

  lemma SameKeysWhy(t: Tid, p: Pc, semas: map<Sid, Sema>, semas': map<Sid, Sema>)
    requires WhyOk(t, p, semas) && semas.Keys <= semas'.Keys
    ensures WhyOk(t, p, semas')
  {
  }

  lemma DownedKeeps(s: System, x: Sid, why: Why)
    requires SystemInv(s) && MayTest(s.core, x) && WhyOk(Me(s), Testing(x, why), s.core.semas)
    requires var p := s.core.pc[Me(s)]; Outside(p) && forall d :: Listed(p, d) <==> why == ToWake(d)
    requires s.core.semas[x].value > 0
    ensures CoreInv(s.core) && SystemInv(Tested(s, x, why))
    ensures why.ToWake? ==> s.ticks >= why.deadline
  {
    hide CoreInv, MutexInv, WhyInv, SleepInv, Listed, InCritical, Held, Outside, MayTest;
    TestKeeps(s.core, x, why, AfterDown(why));
    var me, p, pc, semas := Me(s), AfterDown(why), s.core.pc, s.core.semas;
    var semas' := Tested(s, x, why).core.semas;
    InCore(s, x);
    OutsideIsNotCritical(pc[me]);
    CriticalAfterDown(me, x, why, semas);
    LocksExist(s);
    MutexMoves(pc, s.holder, semas, me, p, s.holder, semas');
    WhyMoves(pc, semas, me, p, semas');
    if why.ToWake? {
      assert ListedIn(pc, me, why.deadline);
      SleepReturns(pc, semas, s.sleepers, s.ticks, me, why.deadline, semas');
    } else {
      NotListedAfterDown(why);
      ListedMoves(pc, me, p);
      SleepSame(pc, semas, s.sleepers, s.ticks, pc[me := p], semas');
    }
  }

  lemma InCore(s: System, x: Sid)
    requires MayTest(s.core, x)
    ensures Me(s) in s.core.pc && x in s.core.semas
  {
  }

  lemma NotListedAfterDown(why: Why)
    requires !why.ToWake?
    ensures forall d :: !Listed(AfterDown(why), d) && why != ToWake(d)
  {
  }

  lemma CriticalAfterDown(me: Tid, x: Sid, why: Why, semas: map<Sid, Sema>)
    requires x in semas && WhyOk(me, Testing(x, why), semas)
    ensures IsMutex(x) ==> InCritical(AfterDown(why), x)
    ensures forall s | IsMutex(s) && s != x :: !InCritical(AfterDown(why), s)
    ensures WhyOk(me, AfterDown(why), semas)
  {
  }

  /** sema_up of a semaphore that is not one on a sleeper's stack, with the thread moving on. */
  lemma UppedKeeps(s: System, x: Sid, p: Pc)
    requires SystemInv(s) && Me(s) in s.core.pc && x in s.core.semas && !x.Private?
    requires Ordinary(s.core.pc[Me(s)]) && Ordinary(p) && WhyOk(Me(s), p, s.core.semas)
    requires forall k | IsMutex(k) ::
      One(k == x) + One(InCritical(p, k)) == One(InCritical(s.core.pc[Me(s)], k))
    requires forall d :: Listed(p, d) <==> Listed(s.core.pc[Me(s)], d)
    ensures CoreInv(s.core) && SystemInv(Upped(s, x, p))
  {
    hide *;
    Basics(s);
    LocksExist(s);
    UpEnabled(s.core, x);
    UpKeeps(s.core, x);
    UpIs(s.core, x);
    SetPcKeeps(Up(s.core, x), p);
    SetPcIs(Up(s.core, x), p);
    UppedIs(s, x, p);
    UpSums(s, x, p, Up(s.core, x).semas);
    Assemble(s, SetPc(Up(s.core, x), p), p, s.holder);
  }

  lemma UppedIs(s: System, x: Sid, p: Pc)
    requires CoreInv(s.core) && x in s.core.semas
    ensures s.core.semas[x].waiters != [] ==> IsBlocked(s.core.sched, s.core.semas[x].waiters[0])
    ensures Upped(s, x, p) == s.(core := SetPc(Up(s.core, x), p))
  {
    hide CoreInv, Up, SetPc;
    UpEnabled(s.core, x);
  }

  lemma UpSums(s: System, x: Sid, p: Pc, semas': map<Sid, Sema>)
    requires Me(s) in s.core.pc && x in s.core.semas && !x.Private? && semas'.Keys == s.core.semas.Keys
    requires semas'[x].value == s.core.semas[x].value + 1
    requires forall y | y in s.core.semas && y != x :: semas'[y] == s.core.semas[y]
    requires forall k | IsMutex(k) ::
      One(k == x) + One(InCritical(p, k)) == One(InCritical(s.core.pc[Me(s)], k))
    ensures forall y | y in s.core.semas && IsMutex(y) ::
      semas'[y].value + One(InCritical(p, y)) + Held(s.holder, y)
      == s.core.semas[y].value + One(InCritical(s.core.pc[Me(s)], y)) + Held(s.holder, y)
    ensures forall t | Private(t) in s.core.semas :: semas'[Private(t)].value == s.core.semas[Private(t)].value
  {
    hide InCritical, Held;
  }

  /** Places that no semaphore, lock or list of this module knows of. */
  predicate Elsewhere(p: Pc) {
    p.Free? || p.Born? || p.Creating? || p.IdleStart? || p.IdleLoop?
  }

  /** Steps that move threads between such places, and make and destroy threads. */
  predicate MovesElsewhere(pc: map<Tid, Pc>, pc': map<Tid, Pc>) {
    && (forall t | t in pc' :: (t in pc && pc[t] == pc'[t]) || Elsewhere(pc'[t]))
    && (forall t | t in pc :: (t in pc' && pc[t] == pc'[t]) || Elsewhere(pc[t]))
  }

  lemma ElsewhereKeeps(s: System, c': Core, slice: nat)
    requires SystemInv(s) && CoreInv(c') && c'.semas == s.core.semas && MovesElsewhere(s.core.pc, c'.pc)
    requires slice < TIME_SLICE
    ensures SystemInv(s.(core := c', slice := slice))
  {
    hide CoreInv, MutexInv, SleepInv, WhyInv;
    SameSections(s.core.pc, c'.pc);
    WhyElsewhere(s.core.pc, c'.pc, c'.semas);
    MutexSame(s.core.pc, s.holder, s.core.semas, c'.pc, c'.semas);
    SleepSame(s.core.pc, s.core.semas, s.sleepers, s.ticks, c'.pc, c'.semas);
  }

  lemma SameSections(pc: map<Tid, Pc>, pc': map<Tid, Pc>)
    requires MovesElsewhere(pc, pc')
    ensures forall t, s :: t in pc' && InCritical(pc'[t], s) <==> t in pc && InCritical(pc[t], s)
    ensures forall t, d :: ListedIn(pc', t, d) <==> ListedIn(pc, t, d)
  {
  }

  lemma WhyElsewhere(pc: map<Tid, Pc>, pc': map<Tid, Pc>, semas: map<Sid, Sema>)
    requires WhyInv(pc, semas) && MovesElsewhere(pc, pc')
    ensures WhyInv(pc', semas)
  {
  }

  lemma YieldNowKeeps(s: System)
    requires SystemInv(s) && InCode(s)
    ensures Me(s) in s.core.sched.status && SystemInv(s.(core := YieldCpu(s.core), slice := 0))
  {
    hide *;
    Basics(s);
    YieldCpuKeeps(s.core);
    YieldCpuPlaces(s.core);
    ElsewhereKeeps(s, YieldCpu(s.core), 0);
  }

  lemma ExitNowKeeps(s: System)
    requires SystemInv(s) && InCode(s)
    ensures SomeoneToRun(s.core.sched) && SystemInv(s.(core := ExitThread(s.core), slice := 0))
  {
    hide *;
    Basics(s);
    ExitThreadKeeps(s.core);
    ExitPlacesElsewhere(s.core);
    ElsewhereKeeps(s, ExitThread(s.core), 0);
  }

  lemma IdleWaitKeeps(s: System)
    requires SystemInv(s) && At(s, IdleLoop)
    ensures SomeoneToRun(s.core.sched) && SystemInv(s.(core := IdleBlocks(s.core), slice := 0))
  {
    hide *;
    Basics(s);
    IdleIsMe(s.core);
    IdleBlocksKeeps(s.core);
    IdleBlocksPlaces(s.core);
    ElsewhereKeeps(s, IdleBlocks(s.core), 0);
  }

  lemma YieldCpuPlaces(c: Core)
    requires Cur(c) in c.sched.status
    ensures YieldCpu(c).pc == c.pc && YieldCpu(c).semas == c.semas && MovesElsewhere(c.pc, YieldCpu(c).pc)
  {
  }

  lemma IdleBlocksPlaces(c: Core)
    requires SomeoneToRun(c.sched)
    ensures IdleBlocks(c).semas == c.semas && MovesElsewhere(c.pc, IdleBlocks(c).pc)
  {
  }

  lemma ExitPlacesElsewhere(c: Core)
    requires SomeoneToRun(c.sched) && Cur(c) in c.pc && c.pc[Cur(c)].Free?
    ensures ExitThread(c).semas == c.semas && MovesElsewhere(c.pc, ExitThread(c).pc)
  {
  }

  lemma CreatePlacesElsewhere(c: Core, t: Tid)
    requires Cur(c) in c.pc && c.pc[Cur(c)].Free? && t !in c.pc
    ensures CreateThread(c, t).semas == c.semas && MovesElsewhere(c.pc, CreateThread(c, t).pc)
  {
  }

  lemma LaunchPlacesElsewhere(c: Core)
    requires Cur(c) in c.pc && c.pc[Cur(c)].Creating? && IsBlocked(c.sched, c.pc[Cur(c)].child)
    requires c.pc[Cur(c)].child in c.pc && c.pc[c.pc[Cur(c)].child].Born?
    ensures LaunchThread(c).semas == c.semas && MovesElsewhere(c.pc, LaunchThread(c).pc)
  {
  }

  lemma IdleBeginsElsewhere(c: Core)
    requires Cur(c) in c.pc && c.pc[Cur(c)].IdleStart?
    ensures IdleBegins(c).semas == c.semas && MovesElsewhere(c.pc, IdleBegins(c).pc)
  {
  }

  lemma IdleIsMe(c: Core)
    requires CoreInv(c) && Cur(c) in c.pc && (c.pc[Cur(c)].IdleLoop? || c.pc[Cur(c)].IdleStart?)
    ensures Cur(c) == c.sched.idleThread && c.sched.idleKnown == c.pc[Cur(c)].IdleLoop?
  {
  }

  /** The parts of the invariant that a step needs in plain sight. */
  lemma Basics(s: System)
    requires SystemInv(s)
    ensures CoreInv(s.core) && s.slice < TIME_SLICE && Me(s) == Cur(s.core)
    ensures Me(s) in s.core.pc && Me(s) in s.core.sched.status
    ensures InCode(s) <==> s.core.pc[Me(s)].Free?
    ensures forall p :: At(s, p) <==> s.core.pc[Me(s)] == p
  {
    CurrentRuns(s.core);
  }

  lemma SpawnKeeps(s: System, t: Tid)
    requires SystemInv(s) && InCode(s) && t !in s.core.sched.status
    ensures SystemInv(s.(core := CreateThread(s.core, t)))
  {
    hide *;
    Basics(s);
    NotYet(s.core, t);
    CreateThreadKeeps(s.core, t);
    CreatePlacesElsewhere(s.core, t);
    ElsewhereKeeps(s, CreateThread(s.core, t), s.slice);
  }

  lemma LaunchKeeps(s: System)
    requires SystemInv(s) && Me(s) in s.core.pc && s.core.pc[Me(s)].Creating?
    ensures IsBlocked(s.core.sched, s.core.pc[Me(s)].child) && SystemInv(s.(core := LaunchThread(s.core)))
  {
    hide *;
    Basics(s);
    LaunchThreadKeeps(s.core);
    ChildElsewhere(s.core);
    LaunchPlacesElsewhere(s.core);
    ElsewhereKeeps(s, LaunchThread(s.core), s.slice);
  }

  lemma BecomeIdleKeeps(s: System)
    requires SystemInv(s) && At(s, IdleStart)
    ensures SystemInv(s.(core := IdleBegins(s.core)))
  {
    hide *;
    Basics(s);
    IdleIsMe(s.core);
    IdleBeginsKeeps(s.core);
    IdleBeginsElsewhere(s.core);
    ElsewhereKeeps(s, IdleBegins(s.core), s.slice);
  }

  lemma NotYet(c: Core, t: Tid)
    requires CoreInv(c) && t !in c.sched.status
    ensures t !in c.pc
  {
  }

  lemma ChildElsewhere(c: Core)
    requires CoreInv(c) && Cur(c) in c.pc && c.pc[Cur(c)].Creating?
    ensures c.pc[Cur(c)].child in c.pc && c.pc[c.pc[Cur(c)].child].Born?
  {
    ChildIsBlocked(c.sched, c.pc, Cur(c), c.pc[Cur(c)].child);
  }

  // Semaphores and locks.

  lemma InitKeepsAll(s: System, x: Sid, value: nat)
    requires SystemInv(s) && InCode(s) && x !in s.core.semas && (x.Plain? || (x.OfLock? && value == 1))
    ensures SystemInv(s.(core := Init(s.core, x, value)))
  {
    var pc, semas := s.core.pc, s.core.semas;
    var semas' := Init(s.core, x, value).semas;
    NobodyTests(s.core, x);
    InitKeeps(s.core, x, value);
    hide CoreInv;
    InitMutex(pc, s.holder, semas, x, semas');
    hide MutexInv;
    assert WhyInv(pc, semas');
    hide WhyInv;
    SleepSame(pc, semas, s.sleepers, s.ticks, pc, semas');
  }

  lemma NobodyTests(c: Core, x: Sid)
    requires CoreInv(c) && x !in c.semas
    ensures forall t :: !IsTesting(c.pc, t, x)
  {
  }

  lemma InitMutex(pc: map<Tid, Pc>, holder: map<nat, Tid>, semas: map<Sid, Sema>, x: Sid, semas': map<Sid, Sema>)
    requires MutexInv(pc, holder, semas) && WhyInv(pc, semas) && x !in semas && (x.Plain? || x.OfLock?)
    requires semas'.Keys == semas.Keys + {x} && forall s | s in semas :: semas'[s] == semas[s]
    requires x.OfLock? ==> semas'[x].value == 1
    ensures MutexInv(pc, holder, semas')
  {
    if x.OfLock? {
      assert Critical(pc, x) == {} by {
        assert forall t | t in pc :: WhyOk(t, pc[t], semas);
      }
      assert Held(holder, x) == 0;
    }
    hide Critical, Held;
  }

  lemma TryDownPlainKeeps(s: System, id: nat)
    requires SystemInv(s) && InCode(s) && Plain(id) in s.core.semas && s.core.semas[Plain(id)].value > 0
    ensures SystemInv(s.(core := TryDown(s.core, Plain(id))))
  {
    var semas' := TryDown(s.core, Plain(id)).semas;
    TryDownKeeps(s.core, Plain(id));
    hide CoreInv;
    MutexSame(s.core.pc, s.holder, s.core.semas, s.core.pc, semas');
    hide MutexInv;
    assert WhyInv(s.core.pc, semas');
    hide WhyInv;
    SleepSame(s.core.pc, s.core.semas, s.sleepers, s.ticks, s.core.pc, semas');
  }

  lemma TryAcquireKeeps(s: System, l: nat)
    requires SystemInv(s) && InCode(s) && OfLock(l) in s.core.semas && s.core.semas[OfLock(l)].value > 0
    ensures SystemInv(s.(core := SetPc(TryDown(s.core, OfLock(l)), SettingHolder(l))))
  {
    hide *;
    Basics(s);
    LocksExist(s);
    TryDownKeeps(s.core, OfLock(l));
    TryDownIs(s.core, OfLock(l));
    AcquirePlaces(Me(s), l, s.core.semas);
    SetPcKeeps(TryDown(s.core, OfLock(l)), SettingHolder(l));
    SetPcIs(TryDown(s.core, OfLock(l)), SettingHolder(l));
    TryAcquireSums(l, s.core.semas, TryDown(s.core, OfLock(l)).semas);
    Assemble(s, SetPc(TryDown(s.core, OfLock(l)), SettingHolder(l)), SettingHolder(l), s.holder);
  }

  lemma TryDownIs(c: Core, x: Sid)
    requires x in c.semas && c.semas[x].value > 0
    ensures var c' := TryDown(c, x);
      && c'.sched == c.sched && c'.pc == c.pc && Cur(c') == Cur(c)
      && c'.semas == c.semas[x := c.semas[x].(value := c.semas[x].value - 1, downs := c.semas[x].downs + 1)]
  {
  }

  lemma SetPcIs(c: Core, p: Pc)
    ensures SetPc(c, p) == c.(pc := c.pc[Cur(c) := p])
  {
  }

  lemma AcquirePlaces(me: Tid, l: nat, semas: map<Sid, Sema>)
    requires OfLock(l) in semas
    ensures Ordinary(SettingHolder(l)) && Ordinary(Free) && WhyOk(me, SettingHolder(l), semas)
    ensures forall d :: Listed(Free, d) <==> Listed(SettingHolder(l), d)
  {
  }

  lemma TryAcquireSums(l: nat, semas: map<Sid, Sema>, semas': map<Sid, Sema>)
    requires OfLock(l) in semas && semas[OfLock(l)].value > 0
    requires semas' == semas[OfLock(l) := semas[OfLock(l)].(value := semas[OfLock(l)].value - 1, downs := semas[OfLock(l)].downs + 1)]
    ensures forall x | x in semas && IsMutex(x) ::
      semas'[x].value + One(InCritical(SettingHolder(l), x)) == semas[x].value + One(InCritical(Free, x))
    ensures semas'.Keys == semas.Keys && forall t | Private(t) in semas :: semas'[Private(t)] == semas[Private(t)]
  {
  }

  /** A step that changes the place of the current thread, values, and who holds a lock, so that
      what is inside and what is listed still add up. */
  lemma Assemble(s: System, c': Core, p: Pc, holder': map<nat, Tid>)
    requires SystemInv(s) && CoreInv(c') && Me(s) in s.core.pc && c'.pc == s.core.pc[Me(s) := p]
    requires c'.semas.Keys == s.core.semas.Keys && WhyOk(Me(s), p, s.core.semas)
    requires forall d :: Listed(s.core.pc[Me(s)], d) <==> Listed(p, d)
    requires forall x | x in s.core.semas && IsMutex(x) ::
      c'.semas[x].value + One(InCritical(p, x)) + Held(holder', x)
      == s.core.semas[x].value + One(InCritical(s.core.pc[Me(s)], x)) + Held(s.holder, x)
    requires forall l | l in holder' :: OfLock(l) in s.core.semas
    requires forall t | Private(t) in s.core.semas ::
      c'.semas[Private(t)].value == s.core.semas[Private(t)].value
    ensures SystemInv(s.(core := c', holder := holder'))
  {
    hide CoreInv, MutexInv, WhyInv, SleepInv, InCritical, Listed, Held, WhyOk, Critical;
    MutexMoves(s.core.pc, s.holder, s.core.semas, Me(s), p, holder', c'.semas);
    SameKeysWhy(Me(s), p, s.core.semas, c'.semas);
    WhyMoves(s.core.pc, s.core.semas, Me(s), p, c'.semas);
    ListedMoves(s.core.pc, Me(s), p);
    SleepSame(s.core.pc, s.core.semas, s.sleepers, s.ticks, c'.pc, c'.semas);
  }

  /** Steps of a thread that change its place, and perhaps who holds a lock, but no semaphore. */
  lemma MovedKeeps(s: System, p: Pc, holder': map<nat, Tid>)
    requires SystemInv(s) && Me(s) in s.core.pc && Ordinary(s.core.pc[Me(s)]) && Ordinary(p)
    requires WhyOk(Me(s), p, s.core.semas) && forall d :: Listed(p, d) <==> Listed(s.core.pc[Me(s)], d)
    requires forall x | x in s.core.semas && IsMutex(x) ::
      One(InCritical(p, x)) + Held(holder', x) == One(InCritical(s.core.pc[Me(s)], x)) + Held(s.holder, x)
    requires forall l | l in holder' :: OfLock(l) in s.core.semas
    ensures SystemInv(Moved(s, p).(holder := holder'))
  {
    var me, pc, semas := Me(s), s.core.pc, s.core.semas;
    SetPcKeeps(s.core, p);
    hide CoreInv, MutexInv, WhyInv, SleepInv, Listed, InCritical, Held, WhyOk;
    MutexMoves(pc, s.holder, semas, me, p, holder', semas);
    WhyMoves(pc, semas, me, p, semas);
    ListedMoves(pc, me, p);
    SleepSame(pc, semas, s.sleepers, s.ticks, pc[me := p], semas);
  }

  lemma SetHolderSums(s: System, l: nat)
    requires SystemInv(s) && At(s, SettingHolder(l))
    ensures l !in s.holder && OfLock(l) in s.core.semas
    ensures Ordinary(SettingHolder(l)) && Ordinary(Free) && WhyOk(Me(s), Free, s.core.semas)
    ensures forall d :: Listed(Free, d) <==> Listed(SettingHolder(l), d)
    ensures forall x | IsMutex(x) ::
      One(InCritical(Free, x)) + Held(s.holder[l := Me(s)], x) == One(InCritical(SettingHolder(l), x)) + Held(s.holder, x)
  {
    hide *;
    AtIs(s, SettingHolder(l));
    MyWhy(s);
    PartsOf(s);
    LockPlaces(Me(s), l, s.core.semas);
    InsideAlone(s.core.pc, s.holder, s.core.semas, Me(s), OfLock(l));
    HolderSums(s.holder, l, Me(s));
  }

  lemma LockPlaces(me: Tid, l: nat, semas: map<Sid, Sema>)
    ensures Ordinary(SettingHolder(l)) && Ordinary(Free) && Ordinary(Releasing(l)) && WhyOk(me, Free, semas)
    ensures WhyOk(me, SettingHolder(l), semas) ==> OfLock(l) in semas
    ensures OfLock(l) in semas ==> WhyOk(me, Releasing(l), semas)
    ensures IsMutex(OfLock(l)) && InCritical(SettingHolder(l), OfLock(l))
    ensures forall d :: !Listed(Free, d) && !Listed(SettingHolder(l), d) && !Listed(Releasing(l), d)
  {
  }

  lemma HolderSums(holder: map<nat, Tid>, l: nat, me: Tid)
    requires Held(holder, OfLock(l)) == 0
    ensures l !in holder
    ensures forall x :: One(InCritical(Free, x)) + Held(holder[l := me], x) == One(InCritical(SettingHolder(l), x)) + Held(holder, x)
  {
  }

  lemma ReleaseSums(s: System, l: nat)
    requires SystemInv(s) && Holds(s, l)
    ensures Ordinary(Releasing(l)) && Ordinary(Free) && WhyOk(Me(s), Releasing(l), s.core.semas)
    ensures forall d :: Listed(Free, d) <==> Listed(Releasing(l), d)
    ensures forall x | IsMutex(x) ::
      One(InCritical(Releasing(l), x)) + Held(s.holder - {l}, x) == One(InCritical(Free, x)) + Held(s.holder, x)
  {
    LocksExist(s);
    hide SystemInv, WhyOk, Listed, Ordinary, InCritical, Held;
    LockPlaces(Me(s), l, s.core.semas);
    FreedSums(s.holder, l);
  }

  lemma FreedSums(holder: map<nat, Tid>, l: nat)
    requires l in holder
    ensures forall x :: One(InCritical(Releasing(l), x)) + Held(holder - {l}, x) == One(InCritical(Free, x)) + Held(holder, x)
  {
  }

  lemma SetHolderKeeps(s: System)
    requires SystemInv(s) && Me(s) in s.core.pc && s.core.pc[Me(s)].SettingHolder?
    ensures var l := s.core.pc[Me(s)].l;
      l !in s.holder && SystemInv(Moved(s, Free).(holder := s.holder[l := Me(s)]))
  {
    hide *;
    Basics(s);
    LocksExist(s);
    SetHolderSums(s, s.core.pc[Me(s)].l);
    MovedKeeps(s, Free, s.holder[s.core.pc[Me(s)].l := Me(s)]);
  }

  lemma ReleaseKeeps(s: System, l: nat)
    requires SystemInv(s) && InCode(s) && Holds(s, l)
    ensures SystemInv(Moved(s, Releasing(l)).(holder := s.holder - {l}))
  {
    hide *;
    Basics(s);
    LocksExist(s);
    ReleaseSums(s, l);
    MovedKeeps(s, Releasing(l), s.holder - {l});
  }

  // timer_sleep and the timer interrupt.

  lemma InsertKeeps(s: System, d: int)
    requires SystemInv(s) && At(s, Inserting(d))
    ensures SystemInv(s.(core := SetPc(Init(s.core, Private(Me(s)), 0), Inserted(d)),
                         sleepers := InsertSleeper(s.sleepers, Sleeper(Me(s), d))))
  {
    hide *;
    Basics(s);
    var me, pc, semas := Me(s), s.core.pc, s.core.semas;
    OnlyOwnerTests(s, d);
    InitKeeps(s.core, Private(me), 0);
    InitIs(s.core, Private(me), 0);
    InsertPlaces(me, d, semas);
    SetPcKeeps(Init(s.core, Private(me), 0), Inserted(d));
    SetPcIs(Init(s.core, Private(me), 0), Inserted(d));
    InsertParts(s, d, SetPc(Init(s.core, Private(me), 0), Inserted(d)));
  }

  lemma OnlyOwnerTests(s: System, d: int)
    requires SystemInv(s) && At(s, Inserting(d))
    ensures forall t :: !IsTesting(s.core.pc, t, Private(Me(s)))
  {
    hide CoreInv, MutexInv, SleepInv;
    forall t
      ensures !IsTesting(s.core.pc, t, Private(Me(s)))
    {
      assert t in s.core.pc ==> WhyOk(t, s.core.pc[t], s.core.semas);
    }
  }

  lemma InitIs(c: Core, x: Sid, value: nat)
    ensures var c' := Init(c, x, value);
      && c'.sched == c.sched && c'.pc == c.pc && Cur(c') == Cur(c)
      && c'.semas == c.semas[x := Sema(value, [], value, 0, 0)]
  {
  }

  lemma InsertPlaces(me: Tid, d: int, semas: map<Sid, Sema>)
    ensures Ordinary(Inserting(d)) && Ordinary(Inserted(d)) && WhyOk(me, Inserted(d), semas)
    ensures forall x :: InCritical(Inserting(d), x) == InCritical(Inserted(d), x)
  {
  }

  lemma AtIs(s: System, p: Pc)
    requires At(s, p)
    ensures Me(s) in s.core.pc && s.core.pc[Me(s)] == p
  {
  }

  lemma PartsOf(s: System)
    requires SystemInv(s)
    ensures MutexInv(s.core.pc, s.holder, s.core.semas) && WhyInv(s.core.pc, s.core.semas)
    ensures SleepInv(s.core.pc, s.core.semas, s.sleepers, s.ticks) && s.slice < TIME_SLICE
  {
  }

  lemma PartsMake(s: System)
    requires CoreInv(s.core) && MutexInv(s.core.pc, s.holder, s.core.semas) && WhyInv(s.core.pc, s.core.semas)
    requires SleepInv(s.core.pc, s.core.semas, s.sleepers, s.ticks) && s.slice < TIME_SLICE
    ensures SystemInv(s)
  {
  }

  lemma SameMutexValues(semas: map<Sid, Sema>, semas': map<Sid, Sema>, me: Tid)
    requires semas' == semas[Private(me) := Sema(0, [], 0, 0, 0)]
    ensures semas.Keys <= semas'.Keys && Private(me) in semas' && semas'[Private(me)].value == 0
    ensures forall x | x in semas && IsMutex(x) :: x in semas' && semas'[x] == semas[x]
    ensures forall x | x in semas' && x !in semas :: !IsMutex(x)
    ensures forall t | Private(t) in semas && t != me ::
      Private(t) in semas' && semas'[Private(t)].value == semas[Private(t)].value
  {
  }

  lemma InsertSums(pc: map<Tid, Pc>, holder: map<nat, Tid>, semas: map<Sid, Sema>, me: Tid, d: int, semas': map<Sid, Sema>)
    requires me in pc && pc[me] == Inserting(d)
    requires forall x | x in semas && IsMutex(x) :: x in semas' && semas'[x] == semas[x]
    ensures forall x | x in semas && IsMutex(x) ::
      semas'[x].value + One(InCritical(Inserted(d), x)) + Held(holder, x)
      == semas[x].value + One(InCritical(pc[me], x)) + Held(holder, x)
  {
    InsertPlaces(me, d, semas);
  }

  lemma InsertParts(s: System, d: int, c': Core)
    requires SystemInv(s) && At(s, Inserting(d)) && CoreInv(c')
    requires c'.pc == s.core.pc[Me(s) := Inserted(d)]
    requires c'.semas == s.core.semas[Private(Me(s)) := Sema(0, [], 0, 0, 0)]
    ensures SystemInv(s.(core := c', sleepers := InsertSleeper(s.sleepers, Sleeper(Me(s), d))))
  {
    hide *;
    var me, pc, semas := Me(s), s.core.pc, s.core.semas;
    AtIs(s, Inserting(d));
    InsertPlaces(me, d, c'.semas);
    LocksExist(s);
    PartsOf(s);
    SameMutexValues(semas, c'.semas, me);
    InsertSums(pc, s.holder, semas, me, d, c'.semas);
    MutexMoves(pc, s.holder, semas, me, Inserted(d), s.holder, c'.semas);
    WhyMoves(pc, semas, me, Inserted(d), c'.semas);
    SleepInserts(pc, semas, s.sleepers, s.ticks, me, d, c'.semas);
    PartsMake(s.(core := c', sleepers := InsertSleeper(s.sleepers, Sleeper(me, d))));
  }

  /** A timer interrupt that finds the list's semaphore free finds the list fully linked, since no
      thread is between the two ends of the insertion. */
  lemma InterruptSeesWholeList(s: System)
    requires SystemInv(s) && s.core.semas[SleepList].value > 0
    ensures forall t | t in s.core.pc :: !s.core.pc[t].Inserting? && !s.core.pc[t].Inserted?
  {
    forall t | t in s.core.pc
      ensures !s.core.pc[t].Inserting? && !s.core.pc[t].Inserted?
    {
      if InCritical(s.core.pc[t], SleepList) {
        InsideAlone(s.core.pc, s.holder, s.core.semas, t, SleepList);
      }
    }
  }

  lemma LaterSleep(pc: map<Tid, Pc>, semas: map<Sid, Sema>, q: seq<Sleeper>, ticks: int)
    requires SleepInv(pc, semas, q, ticks)
    ensures SleepInv(pc, semas, q, ticks + 1)
  {
    hide SortedSleepers, ListedIn;
  }

  lemma WokenUpKeeps(s: System)
    requires SystemInv(s) && s.core.semas[SleepList].value > 0
    ensures forall x | x in s.sleepers :: Private(x.t) in s.core.semas
    ensures var s' := WokenUp(s.(ticks := s.ticks + 1));
      && SystemInv(s') && s'.core.pc == s.core.pc && s'.ticks == s.ticks + 1 && s'.slice == s.slice
      && Me(s') == Me(s) && s'.holder == s.holder
      && forall x | x in s'.sleepers :: x.deadline > s'.ticks
  {
    hide *;
    Basics(s);
    LocksExist(s);
    SleepersHaveSemas(s);
    var c1, ticks := TryDown(s.core, SleepList), s.ticks + 1;
    TryDownKeeps(s.core, SleepList);
    TryDownIs(s.core, SleepList);
    SleepOf(s);
    LaterSleep(s.core.pc, s.core.semas, s.sleepers, s.ticks);
    SleepSame(s.core.pc, s.core.semas, s.sleepers, ticks, c1.pc, c1.semas);
    WakeKeepsCore(c1, s.sleepers, ticks);
    WakeSleeps(c1, s.sleepers, ticks);
    var (c2, q) := WakeExpired(c1, s.sleepers, ticks);
    UpEnabled(c2, SleepList);
    UpKeeps(c2, SleepList);
    UpIs(c2, SleepList);
    WokenUpIs(s.(ticks := ticks));
    TickParts(s, Up(c2, SleepList), c2.semas, q);
    MeIs(s);
    MeIs(WokenUp(s.(ticks := ticks)));
  }

  lemma MeIs(s: System)
    ensures Me(s) == s.core.sched.current
  {
  }

  lemma SleepOf(s: System)
    requires SystemInv(s)
    ensures SleepInv(s.core.pc, s.core.semas, s.sleepers, s.ticks)
  {
  }

  lemma UpIs(c: Core, x: Sid)
    requires x in c.semas && (c.semas[x].waiters != [] ==> IsBlocked(c.sched, c.semas[x].waiters[0]))
    ensures var c' := Up(c, x);
      && c'.sched.current == c.sched.current && Cur(c') == Cur(c) && c'.pc == c.pc && c'.semas.Keys == c.semas.Keys && c'.semas[x].value == c.semas[x].value + 1
      && forall y | y in c.semas && y != x :: c'.semas[y] == c.semas[y]
  {
  }

  lemma WokenUpIs(s: System)
    requires CoreInv(s.core) && SleepList in s.core.semas && s.core.semas[SleepList].value > 0
    requires forall x | x in s.sleepers :: Private(x.t) in s.core.semas
    ensures CanWake(TryDown(s.core, SleepList), s.sleepers, s.ticks)
    ensures var (c, q) := WakeExpired(TryDown(s.core, SleepList), s.sleepers, s.ticks);
      && SleepList in c.semas
      && (c.semas[SleepList].waiters != [] ==> IsBlocked(c.sched, c.semas[SleepList].waiters[0]))
      && WokenUp(s) == s.(core := Up(c, SleepList), sleepers := q)
  {
    hide CoreInv, WakeExpired, CanWake, TryDown, Up;
    TryDownKeeps(s.core, SleepList);
    TryDownIs(s.core, SleepList);
    WakeKeepsCore(TryDown(s.core, SleepList), s.sleepers, s.ticks);
    UpEnabled(WakeExpired(TryDown(s.core, SleepList), s.sleepers, s.ticks).0, SleepList);
  }

  lemma TickParts(s: System, c': Core, semas: map<Sid, Sema>, q: seq<Sleeper>)
    requires SystemInv(s) && CoreInv(c') && c'.pc == s.core.pc && SleepList in s.core.semas
    requires SleepInv(s.core.pc, semas, q, s.ticks + 1)
    requires semas.Keys == s.core.semas.Keys && c'.semas.Keys == semas.Keys
    requires forall x | x in semas && !x.Private? && x != SleepList :: semas[x] == s.core.semas[x]
    requires semas[SleepList].value == s.core.semas[SleepList].value - 1
    requires c'.semas[SleepList].value == semas[SleepList].value + 1
    requires forall y | y in semas && y != SleepList :: c'.semas[y] == semas[y]
    ensures SystemInv(s.(core := c', sleepers := q, ticks := s.ticks + 1))
  {
    hide CoreInv, SleepInv, InCritical;
    MutexSame(s.core.pc, s.holder, s.core.semas, c'.pc, c'.semas);
    SleepSame(s.core.pc, semas, q, s.ticks + 1, c'.pc, c'.semas);
    hide MutexInv;
  }

  lemma TickKeeps(s: System)
    requires SystemInv(s) && Enabled(s, Tick)
    ensures SystemInv(Ticked(s)) && Ticked(s).ticks == s.ticks + 1 && Ticked(s).core.pc == s.core.pc
    ensures Ticked(s).holder == s.holder
    ensures s.core.semas[SleepList].value > 0 ==> forall x | x in Ticked(s).sleepers :: x.deadline > Ticked(s).ticks
  {
    hide SystemInv, CoreInv, WokenUp, YieldCpu, MovesElsewhere;
    Basics(s);
    LocksExist(s);
    var s1 := s.(ticks := s.ticks + 1);
    if s.core.semas[SleepList].value > 0 {
      WokenUpKeeps(s);
      TickSwitches(WokenUp(s1), s.slice);
    } else {
      LaterKeeps(s);
      TickSwitches(s1, s.slice);
    }
  }

  lemma LaterKeeps(s: System)
    requires SystemInv(s)
    ensures SystemInv(s.(ticks := s.ticks + 1))
  {
    hide CoreInv, MutexInv, WhyInv, SleepInv;
    LaterSleep(s.core.pc, s.core.semas, s.sleepers, s.ticks);
  }

  lemma TickSwitches(s: System, slice: nat)
    requires SystemInv(s) && Me(s) in s.core.pc && !s.core.pc[Me(s)].Testing?
    ensures Me(s) in s.core.sched.status
    ensures slice + 1 < TIME_SLICE ==> SystemInv(s.(slice := slice + 1))
    ensures SystemInv(s.(core := YieldCpu(s.core), slice := 0)) && YieldCpu(s.core).pc == s.core.pc
  {
    hide CoreInv, MutexInv, WhyInv, SleepInv, YieldCpu, MovesElsewhere;
    Basics(s);
    YieldCpuKeeps(s.core);
    YieldCpuPlaces(s.core);
    ElsewhereKeeps(s, YieldCpu(s.core), 0);
  }

  lemma SleepPlaces(me: Tid, d: int, semas: map<Sid, Sema>)
    ensures Ordinary(Free) && Ordinary(Starting(d)) && WhyOk(me, Starting(d), semas)
    ensures forall e :: Listed(Starting(d), e) <==> Listed(Free, e)
    ensures forall x :: InCritical(Starting(d), x) == InCritical(Free, x)
  {
  }

  lemma SleepKeeps(s: System, n: int)
    requires SystemInv(s) && InCode(s)
    ensures SystemInv(Moved(s, Starting(s.ticks + n)))
  {
    hide *;
    Basics(s);
    LocksExist(s);
    SleepPlaces(Me(s), s.ticks + n, s.core.semas);
    MovedKeeps(s, Starting(s.ticks + n), s.holder);
    MovedHolder(s, Starting(s.ticks + n));
  }

  lemma MovedHolder(s: System, p: Pc)
    ensures Moved(s, p).(holder := s.holder) == Moved(s, p)
  {
  }

  lemma DoesThreads(s: System, a: Action)
    requires SystemInv(s) && Enabled(s, a)
    requires a.YieldNow? || a.ExitNow? || a.Spawn? || a.Launch? || a.BecomeIdleThread? || a.IdleWait?
    ensures SystemInv(Do(s, a))
  {
    hide SystemInv, CoreInv, YieldCpu, ExitThread, CreateThread, LaunchThread, IdleBegins, IdleBlocks, MayTest, Schedule;
    match a {
      case YieldNow => YieldNowKeeps(s);
      case ExitNow => ExitNowKeeps(s);
      case Spawn(t) => SpawnKeeps(s, t);
      case Launch => LaunchKeeps(s);
      case BecomeIdleThread => BecomeIdleKeeps(s);
      case IdleWait => IdleWaitKeeps(s);
    }
  }

  /** The four places from which sema_down is entered or resumed. */
  predicate TestsFor(me: Tid, p: Pc, x: Sid, why: Why) {
    || (p.Free? && ((x.Plain? && why == ForCaller) || (x.OfLock? && why == ForLock(x.lock))))
    || (p.Starting? && x == SleepList && why == ToInsert(p.deadline))
    || (p.AboutToWait? && x == Private(me) && why == ToWake(p.deadline))
    || p == Testing(x, why)
  }

  lemma TestPlaces(me: Tid, p: Pc, x: Sid, why: Why)
    requires TestsFor(me, p, x, why)
    ensures Outside(p) && forall d :: Listed(p, d) <==> why == ToWake(d)
  {
  }

  lemma TestWhy(me: Tid, p: Pc, x: Sid, why: Why, semas: map<Sid, Sema>)
    requires TestsFor(me, p, x, why) && (p.Testing? ==> WhyOk(me, p, semas))
    ensures WhyOk(me, Testing(x, why), semas)
  {
  }

  lemma TestKeepsAll(s: System, x: Sid, why: Why)
    requires SystemInv(s) && x in s.core.semas && TestsFor(Me(s), s.core.pc[Me(s)], x, why)
    ensures CoreInv(s.core) && MayTest(s.core, x) && SystemInv(Tested(s, x, why))
    ensures why.ToWake? && s.core.semas[x].value > 0 ==> s.ticks >= why.deadline
  {
    hide *;
    Basics(s);
    StepEnabled(s);
    MyWhy(s);
    TestMay(s, x, why);
    TestPlaces(Me(s), s.core.pc[Me(s)], x, why);
    TestWhy(Me(s), s.core.pc[Me(s)], x, why, s.core.semas);
    TestedKeeps(s, x, why);
  }

  lemma MyWhy(s: System)
    requires SystemInv(s) && Me(s) in s.core.pc
    ensures WhyOk(Me(s), s.core.pc[Me(s)], s.core.semas)
  {
  }

  lemma TestMay(s: System, x: Sid, why: Why)
    requires SystemInv(s) && x in s.core.semas && Me(s) in s.core.pc && TestsFor(Me(s), s.core.pc[Me(s)], x, why)
    ensures MayTest(s.core, x)
  {
    StepEnabled(s);
    hide SystemInv, CoreInv;
  }

  lemma DoesSemas(s: System, a: Action)
    requires SystemInv(s) && Enabled(s, a) && (a.InitSema? || a.Down? || a.TryDownSema? || a.UpSema?)
    ensures SystemInv(Do(s, a))
  {
    hide SystemInv, CoreInv, Tested, Upped, MayTest, TryDown, Init, WhyOk;
    Basics(s);
    match a {
      case InitSema(id, v) => InitKeepsAll(s, Plain(id), v);
      case Down(id) => TestKeepsAll(s, Plain(id), ForCaller);
      case TryDownSema(id) =>
        if s.core.semas[Plain(id)].value > 0 {
          TryDownPlainKeeps(s, id);
        }
      case UpSema(id) =>
        MyWhy(s);
        UppedKeeps(s, Plain(id), Free);
    }
  }

  lemma DoesLocks(s: System, a: Action)
    requires SystemInv(s) && Enabled(s, a)
    requires a.InitLock? || a.Acquire? || a.TryAcquire? || a.SetHolder? || a.Release?
    ensures SystemInv(Do(s, a))
  {
    hide SystemInv, CoreInv, Tested, MayTest, TryDown, Init, SetPc, Moved;
    Basics(s);
    match a {
      case InitLock(l) => InitKeepsAll(s, OfLock(l), 1);
      case Acquire(l) => TestKeepsAll(s, OfLock(l), ForLock(l));
      case TryAcquire(l) =>
        if s.core.semas[OfLock(l)].value > 0 {
          TryAcquireKeeps(s, l);
        }
      case SetHolder => SetHolderKeeps(s);
      case Release(l) => ReleaseKeeps(s, l);
    }
  }

  lemma FinishReleaseKeeps(s: System, l: nat)
    requires SystemInv(s) && At(s, Releasing(l))
    ensures CoreInv(s.core) && OfLock(l) in s.core.semas && SystemInv(Upped(s, OfLock(l), Free))
  {
    hide SystemInv, CoreInv, Upped;
    Basics(s);
    MyWhy(s);
    UppedKeeps(s, OfLock(l), Free);
  }

  lemma FinishInsertKeeps(s: System, d: int)
    requires SystemInv(s) && At(s, Inserted(d))
    ensures CoreInv(s.core) && SleepList in s.core.semas && SystemInv(Upped(s, SleepList, AboutToWait(d)))
  {
    hide SystemInv, CoreInv, Upped;
    Basics(s);
    LocksExist(s);
    MyWhy(s);
    UppedKeeps(s, SleepList, AboutToWait(d));
  }

  lemma DoesSleeps(s: System, a: Action)
    requires SystemInv(s) && Enabled(s, a)
    requires a.Resume? || a.Sleep? || a.SleepDown? || a.Insert? || a.SleepWait?
    ensures SystemInv(Do(s, a))
  {
    hide SystemInv, CoreInv, Tested, MayTest, Init, SetPc, Moved, InsertSleeper;
    Basics(s);
    StepEnabled(s);
    var p := s.core.pc[Me(s)];
    match a {
      case Resume => ResumeKeeps(s);
      case Sleep(n) =>
        if n >= 0 {
          SleepKeeps(s, n);
        }
      case SleepDown => TestKeepsAll(s, SleepList, ToInsert(p.deadline));
      case Insert => InsertKeeps(s, p.deadline);
      case SleepWait => TestKeepsAll(s, Private(Me(s)), ToWake(p.deadline));
    }
  }

  lemma ResumeKeeps(s: System)
    requires SystemInv(s) && Me(s) in s.core.pc && s.core.pc[Me(s)].Testing?
    ensures var p := s.core.pc[Me(s)];
      && CoreInv(s.core) && MayTest(s.core, p.s) && SystemInv(Tested(s, p.s, p.why))
      && p.s in s.core.semas && (p.why.ToWake? && s.core.semas[p.s].value > 0 ==> s.ticks >= p.why.deadline)
  {
    StepEnabled(s);
    hide SystemInv, CoreInv, Tested;
    var p := s.core.pc[Me(s)];
    TestKeepsAll(s, p.s, p.why);
  }

  /** Every step that the kernel can take keeps the invariant. */
  lemma StepKeeps(s: System, a: Action)
    requires SystemInv(s) && Enabled(s, a)
    ensures SystemInv(Do(s, a))
  {
    hide SystemInv, CoreInv, Upped, Ticked;
    match a {
      case InitSema(_, _) => DoesSemas(s, a);
      case Down(_) => DoesSemas(s, a);
      case TryDownSema(_) => DoesSemas(s, a);
      case UpSema(_) => DoesSemas(s, a);
      case InitLock(_) => DoesLocks(s, a);
      case Acquire(_) => DoesLocks(s, a);
      case TryAcquire(_) => DoesLocks(s, a);
      case SetHolder => DoesLocks(s, a);
      case Release(_) => DoesLocks(s, a);
      case FinishRelease => FinishReleaseKeeps(s, s.core.pc[Me(s)].l);
      case Resume => DoesSleeps(s, a);
      case YieldNow => DoesThreads(s, a);
      case ExitNow => DoesThreads(s, a);
      case Spawn(_) => DoesThreads(s, a);
      case Launch => DoesThreads(s, a);
      case BecomeIdleThread => DoesThreads(s, a);
      case IdleWait => DoesThreads(s, a);
      case Sleep(_) => DoesSleeps(s, a);
      case SleepDown => DoesSleeps(s, a);
      case Insert => DoesSleeps(s, a);
      case FinishInsert => FinishInsertKeeps(s, s.core.pc[Me(s)].deadline);
      case SleepWait => DoesSleeps(s, a);
      case Tick => TickKeeps(s);
    }
  }
}
