/** Condition variables (threads/synch.c) on top of the kernel: every step of cond_wait and cond_signal
    is a step of KernelRuns with some bookkeeping, so what holds in runs of the kernel holds here too. */
module ConditionVariables {
  import opened Scheduler
  import opened Semaphores
  import opened KernelRuns
  import opened RunTheorems
  import StepLaws
  import opened Wrappers

  // ----- What one step of the kernel does to an ordinary semaphore ----------------------------------

  /** The step completes a down of the semaphore. */
  predicate Completes(s: System, a: Action, id: nat)
    requires Plain(id) in s.core.semas && Me(s) in s.core.pc
  {
    && s.core.semas[Plain(id)].value > 0
    && (a == Down(id) || a == TryDownSema(id) || (a == Resume && IsTesting(s.core.pc, Me(s), Plain(id))))
  }

  predicate Counts(sema: Sema, sema': Sema, ups: nat, downs: nat) {
    sema'.initial == sema.initial && sema'.ups == sema.ups + ups && sema'.downs == sema.downs + downs
  }

  predicate CountsIn(c: Core, c': Core, x: Sid, ups: nat, downs: nat) {
    x in c.semas && x in c'.semas && Counts(c.semas[x], c'.semas[x], ups, downs)
  }

  lemma TestedCounts(s: System, y: Sid, why: Why, x: Sid)
    requires CoreInv(s.core) && MayTest(s.core, y) && x in s.core.semas
    ensures CountsIn(s.core, Tested(s, y, why).core, x, 0, One(x == y && s.core.semas[x].value > 0))
  {
    hide CoreInv;
    TestKeeps(s.core, y, why, AfterDown(why));
  }

  lemma UppedCounts(s: System, y: Sid, p: Pc, x: Sid)
    requires CoreInv(s.core) && y in s.core.semas && x in s.core.semas
    ensures CountsIn(s.core, Upped(s, y, p).core, x, One(x == y), 0)
  {
    hide CoreInv, Unblock;
    UpEnabled(s.core, y);
  }

  lemma SameCounts(c: Core, c': Core, x: Sid)
    requires x in c.semas && x in c'.semas && c'.semas[x] == c.semas[x]
    ensures CountsIn(c, c', x, 0, 0)
  {
  }

  lemma DownCounts(s: System, a: Action, id: nat)
    requires SystemInv(s) && Enabled(s, a) && Plain(id) in s.core.semas
    requires a.Down? || a.Acquire? || a.Resume? || a.SleepDown? || a.SleepWait?
    ensures CountsIn(s.core, Do(s, a).core, Plain(id), 0, One(Completes(s, a, id)))
  {
    hide SystemInv, CoreInv, Tested, MayTest, CountsIn;
    Basics(s);
    var p := s.core.pc[Me(s)];
    match a {
      case Down(i) =>
        TestKeepsAll(s, Plain(i), ForCaller);
        TestedCounts(s, Plain(i), ForCaller, Plain(id));
      case Acquire(l) =>
        TestKeepsAll(s, OfLock(l), ForLock(l));
        TestedCounts(s, OfLock(l), ForLock(l), Plain(id));
      case Resume =>
        ResumeKeeps(s);
        TestedCounts(s, p.s, p.why, Plain(id));
      case SleepDown =>
        LocksExist(s);
        TestKeepsAll(s, SleepList, ToInsert(p.deadline));
        TestedCounts(s, SleepList, ToInsert(p.deadline), Plain(id));
      case SleepWait =>
        PrivateExists(s);
        TestKeepsAll(s, Private(Me(s)), ToWake(p.deadline));
        TestedCounts(s, Private(Me(s)), ToWake(p.deadline), Plain(id));
    }
  }

  lemma UpCounts(s: System, a: Action, id: nat)
    requires SystemInv(s) && Enabled(s, a) && Plain(id) in s.core.semas
    requires a.UpSema? || a.FinishRelease? || a.FinishInsert?
    ensures CountsIn(s.core, Do(s, a).core, Plain(id), One(a == UpSema(id)), 0)
  {
    hide SystemInv, CoreInv, Upped, CountsIn;
    Basics(s);
    var p := s.core.pc[Me(s)];
    match a {
      case UpSema(i) => UppedCounts(s, Plain(i), Free, Plain(id));
      case FinishRelease =>
        FinishReleaseKeeps(s, p.l);
        UppedCounts(s, OfLock(p.l), Free, Plain(id));
      case FinishInsert =>
        LocksExist(s);
        UppedCounts(s, SleepList, AboutToWait(p.deadline), Plain(id));
    }
  }

  lemma TickCounts(s: System, id: nat)
    requires SystemInv(s) && Enabled(s, Tick) && Plain(id) in s.core.semas
    ensures CountsIn(s.core, Do(s, Tick).core, Plain(id), 0, 0)
  {
    hide SystemInv, CoreInv, WokenUp, YieldCpu, CountsIn;
    TickIs(s);
    Basics(s);
    LocksExist(s);
    var x := Plain(id);
    if s.core.semas[SleepList].value > 0 {
      WokenUpKeeps(s);
      WokenUpLeaves(s, x);
      var s2 := WokenUp(s.(ticks := s.ticks + 1));
      Basics(s2);
      YieldLeaves(s2.core);
      SameCounts(s.core, s2.core, x);
      SameCounts(s.core, YieldCpu(s2.core), x);
    } else {
      YieldLeaves(s.core);
      SameCounts(s.core, s.core, x);
      SameCounts(s.core, YieldCpu(s.core), x);
    }
  }

  lemma YieldLeaves(c: Core)
    requires Cur(c) in c.sched.status
    ensures YieldCpu(c).semas == c.semas
  {
  }

  /** The wake-up loop ups private semaphores only. */
  lemma WokenUpLeaves(s: System, x: Sid)
    requires SystemInv(s) && s.core.semas[SleepList].value > 0 && x.Plain? && x in s.core.semas
    ensures forall y | y in s.sleepers :: Private(y.t) in s.core.semas
    ensures var c' := WokenUp(s.(ticks := s.ticks + 1)).core; x in c'.semas && c'.semas[x] == s.core.semas[x]
  {
    hide *;
    Basics(s);
    LocksExist(s);
    SleepersHaveSemas(s);
    var c1, ticks := TryDown(s.core, SleepList), s.ticks + 1;
    TryDownKeeps(s.core, SleepList);
    TryDownIs(s.core, SleepList);
    SleepOf(s);
    LaterSleep(s.core.pc, s.core.semas, s.sleepers, s.ticks);
    SleepSame(s.core.pc, s.core.semas, s.sleepers, ticks, c1.pc, c1.semas);
    WakeKeepsCore(c1, s.sleepers, ticks);
    WakeSleeps(c1, s.sleepers, ticks);
    var c2 := WakeExpired(c1, s.sleepers, ticks).0;
    UpEnabled(c2, SleepList);
    UpIs(c2, SleepList);
    WokenUpIs(s.(ticks := ticks));
  }

  lemma ThreadCounts(s: System, a: Action, id: nat)
    requires SystemInv(s) && Enabled(s, a) && Plain(id) in s.core.semas
    requires a.YieldNow? || a.ExitNow? || a.Spawn? || a.Launch? || a.BecomeIdleThread? || a.IdleWait?
    ensures CountsIn(s.core, Do(s, a).core, Plain(id), 0, 0)
  {
    hide SystemInv, CoreInv, CountsIn, Yield, Schedule, Exit, Block;
    Basics(s);
    match a {
      case YieldNow => SameCounts(s.core, Do(s, a).core, Plain(id));
      case ExitNow =>
        ExitNowKeeps(s);
        SameCounts(s.core, Do(s, a).core, Plain(id));
      case Spawn(_) => SameCounts(s.core, Do(s, a).core, Plain(id));
      case Launch =>
        LaunchKeeps(s);
        SameCounts(s.core, Do(s, a).core, Plain(id));
      case BecomeIdleThread => SameCounts(s.core, Do(s, a).core, Plain(id));
      case IdleWait =>
        IdleWaitKeeps(s);
        SameCounts(s.core, Do(s, a).core, Plain(id));
    }
  }

  lemma OtherCounts(s: System, a: Action, id: nat)
    requires SystemInv(s) && Enabled(s, a) && Plain(id) in s.core.semas
    requires a.InitSema? || a.TryDownSema? || a.InitLock? || a.TryAcquire? || a.SetHolder? || a.Release? || a.Sleep? || a.Insert?
    ensures CountsIn(s.core, Do(s, a).core, Plain(id), 0, One(Completes(s, a, id)))
  {
    hide SystemInv;
    match a {
      case InitSema(_, _) =>
      case TryDownSema(_) =>
      case InitLock(_) =>
      case TryAcquire(_) =>
      case SetHolder =>
      case Release(_) =>
      case Sleep(_) =>
      case Insert =>
    }
  }

  /** Every step counts an up of the semaphore if it is one, a down if it completes one, and nothing
      else. */
  lemma StepCounts(s: System, a: Action, id: nat)
    requires SystemInv(s) && Enabled(s, a) && Plain(id) in s.core.semas
    ensures Me(s) in s.core.pc
    ensures CountsIn(s.core, Do(s, a).core, Plain(id), One(a == UpSema(id)), One(Completes(s, a, id)))
  {
    hide *;
    Basics(s);
    WhichCompletes(s, a, id);
    if a.YieldNow? || a.ExitNow? || a.Spawn? || a.Launch? || a.BecomeIdleThread? || a.IdleWait? {
      ThreadCounts(s, a, id);
    } else if a.Tick? {
      TickCounts(s, id);
    } else if a.Down? || a.Acquire? || a.Resume? || a.SleepDown? || a.SleepWait? {
      DownCounts(s, a, id);
    } else if a.UpSema? || a.FinishRelease? || a.FinishInsert? {
      UpCounts(s, a, id);
    } else {
      OtherCounts(s, a, id);
    }
  }

  lemma WhichCompletes(s: System, a: Action, id: nat)
    requires Plain(id) in s.core.semas && Me(s) in s.core.pc
    ensures One(true) == 1 && One(false) == 0
    ensures Completes(s, a, id) ==> a.Down? || a.TryDownSema? || a.Resume?
  {
  }

  // ----- Where a step leaves the threads, and the locks ---------------------------------------------

  /** Another thread that tests a semaphore did so before, and no semaphore disappears. */
  predicate OthersStay(c: Core, c': Core) {
    && (forall t | t in c'.pc && t != Cur(c) :: (t in c.pc && c'.pc[t] == c.pc[t]) || !c'.pc[t].Testing?)
    && forall x | x in c.semas :: x in c'.semas
  }

  lemma TestedOthers(s: System, x: Sid, why: Why)
    requires CoreInv(s.core) && MayTest(s.core, x)
    ensures OthersStay(s.core, Tested(s, x, why).core)
  {
    hide CoreInv, Block;
    TestKeeps(s.core, x, why, AfterDown(why));
  }

  lemma UppedOthers(s: System, x: Sid, p: Pc)
    requires CoreInv(s.core) && x in s.core.semas
    ensures OthersStay(s.core, Upped(s, x, p).core)
  {
    hide CoreInv, Up;
    UpEnabled(s.core, x);
    UpIs(s.core, x);
  }

  lemma DownOthers(s: System, a: Action)
    requires SystemInv(s) && Enabled(s, a)
    requires a.Down? || a.Acquire? || a.Resume? || a.SleepDown? || a.SleepWait?
    ensures OthersStay(s.core, Do(s, a).core)
  {
    hide SystemInv, CoreInv, Tested, MayTest, OthersStay;
    Basics(s);
    var p := s.core.pc[Me(s)];
    match a {
      case Down(i) =>
        TestKeepsAll(s, Plain(i), ForCaller);
        TestedOthers(s, Plain(i), ForCaller);
      case Acquire(l) =>
        TestKeepsAll(s, OfLock(l), ForLock(l));
        TestedOthers(s, OfLock(l), ForLock(l));
      case Resume =>
        ResumeKeeps(s);
        TestedOthers(s, p.s, p.why);
      case SleepDown =>
        LocksExist(s);
        TestKeepsAll(s, SleepList, ToInsert(p.deadline));
        TestedOthers(s, SleepList, ToInsert(p.deadline));
      case SleepWait =>
        PrivateExists(s);
        TestKeepsAll(s, Private(Me(s)), ToWake(p.deadline));
        TestedOthers(s, Private(Me(s)), ToWake(p.deadline));
    }
  }

  lemma UpOthers(s: System, a: Action)
    requires SystemInv(s) && Enabled(s, a) && (a.UpSema? || a.FinishRelease? || a.FinishInsert?)
    ensures OthersStay(s.core, Do(s, a).core)
  {
    hide SystemInv, CoreInv, Upped, OthersStay;
    Basics(s);
    var p := s.core.pc[Me(s)];
    match a {
      case UpSema(i) => UppedOthers(s, Plain(i), Free);
      case FinishRelease =>
        FinishReleaseKeeps(s, p.l);
        UppedOthers(s, OfLock(p.l), Free);
      case FinishInsert =>
        LocksExist(s);
        UppedOthers(s, SleepList, AboutToWait(p.deadline));
    }
  }

  lemma ThreadOthers(s: System, a: Action)
    requires SystemInv(s) && Enabled(s, a)
    requires a.YieldNow? || a.ExitNow? || a.Spawn? || a.Launch? || a.BecomeIdleThread? || a.IdleWait?
    ensures OthersStay(s.core, Do(s, a).core)
  {
    hide SystemInv, CoreInv, Yield, Schedule, Exit, Block;
    Basics(s);
    match a {
      case YieldNow =>
      case ExitNow => ExitNowKeeps(s);
      case Spawn(_) =>
      case Launch => LaunchKeeps(s);
      case BecomeIdleThread =>
      case IdleWait => IdleWaitKeeps(s);
    }
  }

  lemma RestOthers(s: System, a: Action)
    requires SystemInv(s) && Enabled(s, a)
    requires a.InitSema? || a.TryDownSema? || a.InitLock? || a.TryAcquire? || a.SetHolder? || a.Release? || a.Sleep? || a.Insert?
    ensures OthersStay(s.core, Do(s, a).core)
  {
    hide SystemInv;
    match a {
      case InitSema(_, _) =>
      case TryDownSema(_) =>
      case InitLock(_) =>
      case TryAcquire(_) =>
      case SetHolder =>
      case Release(_) =>
      case Sleep(_) =>
      case Insert =>
    }
  }

  lemma StepOthers(s: System, a: Action)
    requires SystemInv(s) && Enabled(s, a)
    ensures OthersStay(s.core, Do(s, a).core)
  {
    hide *;
    Basics(s);
    if a.YieldNow? || a.ExitNow? || a.Spawn? || a.Launch? || a.BecomeIdleThread? || a.IdleWait? {
      ThreadOthers(s, a);
    } else if a.Tick? {
      TickIs(s);
      TickOthers(s);
    } else if a.Down? || a.Acquire? || a.Resume? || a.SleepDown? || a.SleepWait? {
      DownOthers(s, a);
    } else if a.UpSema? || a.FinishRelease? || a.FinishInsert? {
      UpOthers(s, a);
    } else {
      RestOthers(s, a);
    }
  }

  /** A lock that another thread holds stays its own. */
  lemma StepHolder(s: System, a: Action)
    requires SystemInv(s) && Enabled(s, a)
    ensures a.Tick? || a.InitSema? || a.UpSema? ==> Do(s, a).holder == s.holder
    ensures forall l | l in s.holder && s.holder[l] != Me(s) ::
      l in Do(s, a).holder && Do(s, a).holder[l] == s.holder[l]
    ensures forall l | l in Do(s, a).holder && Do(s, a).holder[l] != Me(s) :: l in s.holder && s.holder[l] == Do(s, a).holder[l]
  {
    hide SystemInv, CoreInv, MayTest, Schedule, Ticked, Yield, Block, Exit, Up;
    Basics(s);
    match a {
      case Tick => TickKeeps(s);
      case SetHolder => InsideHolds(s, s.core.pc[Me(s)].l);
      case _ =>
    }
  }

  /** Whoever is about to become the holder finds the lock without one. */
  lemma InsideHolds(s: System, l: nat)
    requires SystemInv(s) && At(s, SettingHolder(l))
    ensures l !in s.holder
  {
    StepEnabled(s);
    InsideAlone(s.core.pc, s.holder, s.core.semas, Me(s), OfLock(l));
  }

  // ----- Condition variables ------------------------------------------------------------------------

  /** struct semaphore_elem, on the stack of the thread that waits; id is its semaphore. */
  datatype Waiter = Waiter(t: Tid, id: nat)

  /** How far a thread has come in cond_wait: it has put itself on the list, it is in lock_release, it has
      released the lock, it is in or behind sema_down, it is in lock_acquire. */
  datatype Where = Listed | Unlocking | Unlocked | Waiting | Relocking

  datatype Stage = Stage(c: nat, l: nat, id: nat, at: Where)

  /** lists are the waiters of each condition variable, and lockOf the one lock that a program uses it
      with. The rest is history: ids are all semaphores that
      cond_wait has used, pending those whose waiter has not been signalled, and entered and signalled say
      in what order that happened. */
  datatype Monitors = Monitors(sys: System, lists: map<nat, seq<Waiter>>, lockOf: map<nat, nat>,
                               stages: map<Tid, Stage>, ids: set<nat>, pending: set<nat>,
                               entered: map<nat, seq<Waiter>>, signalled: map<nat, seq<Waiter>>)

  datatype Call =
    | CondInit(c: nat, l: nat) | CondWait(c: nat, l: nat, id: nat) | Continue | CondSignal(c: nat, l: nat)
    | Other(a: Action)

  // ----- Invariants -----

  predicate StageOk(s: System, t: Tid, st: Stage) {
    && t in s.core.pc && OfLock(st.l) in s.core.semas && Plain(st.id) in s.core.semas
    && var p := s.core.pc[t];
    match st.at
    case Listed => p == Free && st.l in s.holder && s.holder[st.l] == t
    case Unlocking => p == Releasing(st.l)
    case Unlocked => p == Free && !(st.l in s.holder && s.holder[st.l] == t)
    case Waiting => (p == Free || p == Testing(Plain(st.id), ForCaller)) && !(st.l in s.holder && s.holder[st.l] == t)
    case Relocking => p == SettingHolder(st.l) || p == Testing(OfLock(st.l), ForLock(st.l))
  }

  /** The thread has completed the sema_down of cond_wait. */
  predicate Past(pc: map<Tid, Pc>, t: Tid, st: Stage) {
    st.at.Relocking? || (st.at.Waiting? && t in pc && pc[t].Free?)
  }

  predicate Downed(s: System, t: Tid, st: Stage) {
    Plain(st.id) in s.core.semas && s.core.semas[Plain(st.id)].downs == One(Past(s.core.pc, t, st))
  }

  /** Only the thread whose semaphore it is tests the semaphore of a waiter. */
  ghost predicate TestersInv(pc: map<Tid, Pc>, stages: map<Tid, Stage>, ids: set<nat>) {
    forall t, id | IsTesting(pc, t, Plain(id)) && id in ids ::
      t in stages && stages[t].id == id && stages[t].at == Waiting
  }

  ghost predicate StagesInv(s: System, stages: map<Tid, Stage>, ids: set<nat>) {
    && (forall t | t in stages :: StageOk(s, t, stages[t]) && Downed(s, t, stages[t]) && stages[t].id in ids)
    && (forall t, u | t in stages && u in stages && stages[t].id == stages[u].id :: t == u)
    && TestersInv(s.core.pc, stages, ids)
  }

  /** The semaphore of a waiter is upped once, by the signal. */
  predicate Signalled(semas: map<Sid, Sema>, pending: set<nat>, id: nat) {
    && Plain(id) in semas && semas[Plain(id)].initial == 0
    && semas[Plain(id)].ups == One(id !in pending)
  }

  ghost predicate SignalsInv(semas: map<Sid, Sema>, ids: set<nat>, pending: set<nat>) {
    pending <= ids && forall id | id in ids :: Signalled(semas, pending, id)
  }

  predicate Registered(stages: map<Tid, Stage>, pending: set<nat>, c: nat, w: Waiter) {
    w.t in stages && stages[w.t].id == w.id && stages[w.t].c == c && w.id in pending
  }

  /** A list holds the threads that wait for the condition and have not been signalled, in the order in
      which they came. */
  ghost predicate ListsInv(m: Monitors) {
    && m.entered.Keys == m.lists.Keys == m.signalled.Keys && m.lockOf.Keys == m.lists.Keys
    && (forall c | c in m.lists :: m.entered[c] == m.signalled[c] + m.lists[c])
    && (forall c, w | c in m.lists && w in m.lists[c] :: Registered(m.stages, m.pending, c, w))
    && (forall c, i, j | c in m.lists && 0 <= i < j < |m.lists[c]| :: m.lists[c][i].id != m.lists[c][j].id)
    && (forall t | t in m.stages :: m.stages[t].c in m.lists)
    && (forall t | t in m.stages && m.stages[t].id in m.pending ::
          Waiter(t, m.stages[t].id) in m.lists[m.stages[t].c])
  }

  ghost predicate MonitorInv(m: Monitors) {
    && SystemInv(m.sys)
    && StagesInv(m.sys, m.stages, m.ids)
    && SignalsInv(m.sys.core.semas, m.ids, m.pending)
    && ListsInv(m)
  }

  // ----- Steps -----

  predicate Waits(m: Monitors) {
    Me(m.sys) in m.stages
  }

  /** The next section of a thread in cond_wait. */
  function NextSection(s: System, st: Stage): Action
    requires Me(s) in s.core.pc
  {
    match st.at
    case Listed => Release(st.l)
    case Unlocking => FinishRelease
    case Unlocked => Down(st.id)
    case Waiting => if s.core.pc[Me(s)].Testing? then Resume else Acquire(st.l)
    case Relocking => if s.core.pc[Me(s)].Testing? then Resume else SetHolder
  }

  lemma SectionEnabled(s: System, st: Stage)
    requires StageOk(s, Me(s), st)
    ensures Enabled(s, NextSection(s, st))
  {
  }

  /** The program does not use the semaphores on the stacks of waiting threads. */
  predicate LeavesAlone(a: Action, ids: set<nat>) {
    (a.Down? || a.TryDownSema? || a.UpSema?) ==> a.id !in ids
  }

  /** The running thread holds this lock, with which the condition is used. */
  predicate Locked(m: Monitors, c: nat, l: nat) {
    c in m.lockOf && m.lockOf[c] == l && Holds(m.sys, l)
  }

  /** What may happen next. cond_wait and cond_signal assert that the caller holds the lock,
      which has to be the same one for all calls with this condition. */
  predicate Allowed(m: Monitors, call: Call) {
    match call
    case CondInit(c, _) => InCode(m.sys) && !Waits(m) && c !in m.lists
    case CondWait(c, l, id) =>
      InCode(m.sys) && !Waits(m) && c in m.lists && Locked(m, c, l) && Enabled(m.sys, InitSema(id, 0))
    case Continue => Waits(m)
    case CondSignal(c, l) => InCode(m.sys) && !Waits(m) && c in m.lists && Locked(m, c, l)
    case Other(a) => Enabled(m.sys, a) && (a.Tick? || (!Waits(m) && LeavesAlone(a, m.ids)))
  }

  /** The assertions of lock_release and lock_acquire hold in cond_wait, and each of its sections can be
      the next step. */
  lemma ContinueEnabled(m: Monitors)
    requires MonitorInv(m) && Waits(m)
    ensures Me(m.sys) in m.sys.core.pc && StageOk(m.sys, Me(m.sys), m.stages[Me(m.sys)])
    ensures Enabled(m.sys, NextSection(m.sys, m.stages[Me(m.sys)]))
  {
    hide SystemInv, ListsInv, SignalsInv, Enabled, NextSection, StageOk;
    Basics(m.sys);
    SectionEnabled(m.sys, m.stages[Me(m.sys)]);
  }

  lemma FirstIsThere(m: Monitors, c: nat)
    requires MonitorInv(m) && c in m.lists && m.lists[c] != []
    ensures var w := m.lists[c][0];
      w.id in m.ids && Plain(w.id) in m.sys.core.semas && Registered(m.stages, m.pending, c, w)
  {
    hide SystemInv, StagesInv;
    var w := m.lists[c][0];
    assert Registered(m.stages, m.pending, c, w);
    assert Signalled(m.sys.core.semas, m.pending, w.id);
  }

  /** The step of the kernel that a call makes, if any. */
  function Section(m: Monitors, call: Call): (r: Option<Action>)
    requires MonitorInv(m) && Allowed(m, call)
    ensures r.Some? ==> Enabled(m.sys, r.value)
  {
    hide SystemInv, StagesInv, SignalsInv, ListsInv, NextSection;
    match call
    case CondInit(_, _) => None
    case CondWait(_, _, id) => Some(InitSema(id, 0))
    case Continue => ContinueEnabled(m); Some(NextSection(m.sys, m.stages[Me(m.sys)]))
    case CondSignal(c, _) => if m.lists[c] == [] then None else FirstIsThere(m, c); Some(UpSema(m.lists[c][0].id))
    case Other(a) => Some(a)
  }

  /** How far the thread is after that section; None when cond_wait returns. */
  function NextStage(s: System, st: Stage): Option<Stage>
    requires Me(s) in s.core.pc
  {
    match st.at
    case Listed => Some(st.(at := Unlocking))
    case Unlocking => Some(st.(at := Unlocked))
    case Unlocked => Some(st.(at := Waiting))
    case Waiting => if s.core.pc[Me(s)].Testing? then Some(st) else Some(st.(at := Relocking))
    case Relocking => if s.core.pc[Me(s)].Testing? then Some(st) else None
  }

  function Advanced(m: Monitors): map<Tid, Stage>
    requires Waits(m) && Me(m.sys) in m.sys.core.pc
  {
    match NextStage(m.sys, m.stages[Me(m.sys)])
    case Some(st) => m.stages[Me(m.sys) := st]
    case None => m.stages - {Me(m.sys)}
  }

  function Perform(m: Monitors, call: Call): Monitors
    requires MonitorInv(m) && Allowed(m, call)
  {
    hide SystemInv, StagesInv, SignalsInv, ListsInv;
    MonitorParts(m);
    var me := Me(m.sys);
    var sys := if Section(m, call).Some? then Do(m.sys, Section(m, call).value) else m.sys;
    match call
    case CondInit(c, l) =>
      m.(lists := m.lists[c := []], lockOf := m.lockOf[c := l], entered := m.entered[c := []], signalled := m.signalled[c := []])
    case CondWait(c, l, id) =>
      var w := Waiter(me, id);
      m.(sys := sys, lists := m.lists[c := m.lists[c] + [w]], entered := m.entered[c := m.entered[c] + [w]],
         stages := m.stages[me := Stage(c, l, id, Listed)], ids := m.ids + {id}, pending := m.pending + {id})
    case Continue => ContinueEnabled(m); m.(sys := sys, stages := Advanced(m))
    case CondSignal(c, _) =>
      if m.lists[c] == [] then m
      else
        var w := m.lists[c][0];
        m.(sys := sys, lists := m.lists[c := m.lists[c][1..]], signalled := m.signalled[c := m.signalled[c] + [w]],
           pending := m.pending - {w.id})
    case Other(_) => m.(sys := sys)
  }

  lemma MonitorParts(m: Monitors)
    requires MonitorInv(m)
    ensures SystemInv(m.sys) && StagesInv(m.sys, m.stages, m.ids)
    ensures SignalsInv(m.sys.core.semas, m.ids, m.pending) && ListsInv(m)
    ensures m.entered.Keys == m.lists.Keys == m.signalled.Keys
  {
    hide SystemInv, StagesInv, SignalsInv;
  }

  // ----- Every step keeps the invariant -----

  lemma TickOthers(s: System)
    requires SystemInv(s)
    ensures OthersStay(s.core, Ticked(s).core)
  {
    hide SystemInv, CoreInv, YieldCpu, WokenUp;
    Basics(s);
    LocksExist(s);
    YieldLeaves(s.core);
    YieldFrame(s.core);
    if s.core.semas[SleepList].value > 0 {
      WokenUpKeeps(s);
      WokenUpKeys(s);
      var s2 := WokenUp(s.(ticks := s.ticks + 1));
      Basics(s2);
      YieldLeaves(s2.core);
      YieldFrame(s2.core);
    }
  }

  lemma WokenUpKeys(s: System)
    requires SystemInv(s) && s.core.semas[SleepList].value > 0
    ensures forall y | y in s.sleepers :: Private(y.t) in s.core.semas
    ensures WokenUp(s.(ticks := s.ticks + 1)).core.semas.Keys == s.core.semas.Keys
  {
    hide *;
    Basics(s);
    LocksExist(s);
    SleepersHaveSemas(s);
    var c1, ticks := TryDown(s.core, SleepList), s.ticks + 1;
    TryDownKeeps(s.core, SleepList);
    TryDownIs(s.core, SleepList);
    WakeKeepsCore(c1, s.sleepers, ticks);
    var c2 := WakeExpired(c1, s.sleepers, ticks).0;
    UpEnabled(c2, SleepList);
    UpIs(c2, SleepList);
    WokenUpIs(s.(ticks := ticks));
  }

  /** The step completes no down of the semaphore of a thread in cond_wait but the current one. */
  predicate MindsItsOwn(s: System, a: Action, stages: map<Tid, Stage>, ids: set<nat>) {
    (a.Down? || a.TryDownSema?) && a.id in ids ==> Me(s) in stages && stages[Me(s)].id == a.id
  }

  lemma CompletesOwn(s: System, a: Action, stages: map<Tid, Stage>, ids: set<nat>, id: nat)
    requires TestersInv(s.core.pc, stages, ids) && MindsItsOwn(s, a, stages, ids) && id in ids
    requires Plain(id) in s.core.semas && Me(s) in s.core.pc
    ensures Completes(s, a, id) ==> Me(s) in stages && stages[Me(s)].id == id
  {
  }

  lemma OtherStage(s: System, a: Action, stages: map<Tid, Stage>, ids: set<nat>, t: Tid)
    requires SystemInv(s) && Enabled(s, a) && StagesInv(s, stages, ids) && MindsItsOwn(s, a, stages, ids)
    requires t in stages && t != Me(s)
    ensures StageOk(Do(s, a), t, stages[t]) && Downed(Do(s, a), t, stages[t])
  {
    hide SystemInv, Do, Enabled, Completes, MindsItsOwn, TestersInv;
    var st := stages[t];
    StepFrame(s, a);
    StepHolder(s, a);
    StepOthers(s, a);
    assert StageOk(s, t, st) && Downed(s, t, st);
    StepCounts(s, a, st.id);
    CompletesOwn(s, a, stages, ids, st.id);
  }

  /** The current thread's own section takes it to the next stage of cond_wait, or out of it with the
      lock; only sema_down's completion counts as a down of its semaphore. */
  lemma OwnStage(s: System, st: Stage)
    requires SystemInv(s) && StageOk(s, Me(s), st) && Enabled(s, NextSection(s, st))
    requires Downed(s, Me(s), st)
    ensures var (s', me) := (Do(s, NextSection(s, st)), Me(s));
      match NextStage(s, st)
      case Some(st') =>
        && StageOk(s', me, st') && st'.c == st.c && st'.id == st.id && st'.l == st.l
        && One(Past(s'.core.pc, me, st')) == One(Past(s.core.pc, me, st)) + One(Completes(s, NextSection(s, st), st.id))
      case None => me in s'.core.pc && s'.core.pc[me].Free? && st.l in s'.holder && s'.holder[st.l] == me
  {
    hide SystemInv, CoreInv, MayTest, Schedule, Block, Unblock, Tested, Upped;
    Basics(s);
    var me := Me(s);
    StepOthers(s, NextSection(s, st));
    match st.at {
      case Listed =>
      case Unlocking =>
        FinishReleaseKeeps(s, st.l);
        UppedFrame(s, OfLock(st.l), Free);
        UppedHolder(s, OfLock(st.l), Free);
        ReleasingHoldsNot(s, st.l);
      case Unlocked =>
        TestKeepsAll(s, Plain(st.id), ForCaller);
        TestedFrame(s, Plain(st.id), ForCaller);
        TestedHolder(s, Plain(st.id), ForCaller);
      case Waiting =>
        if s.core.pc[me].Testing? {
          ResumeKeeps(s);
          TestedFrame(s, Plain(st.id), ForCaller);
          TestedHolder(s, Plain(st.id), ForCaller);
        } else {
          TestKeepsAll(s, OfLock(st.l), ForLock(st.l));
          TestedFrame(s, OfLock(st.l), ForLock(st.l));
        }
      case Relocking =>
        if s.core.pc[me].Testing? {
          ResumeKeeps(s);
          TestedFrame(s, OfLock(st.l), ForLock(st.l));
        }
    }
  }

  lemma TestedHolder(s: System, x: Sid, why: Why)
    requires CoreInv(s.core) && MayTest(s.core, x)
    ensures Tested(s, x, why).holder == s.holder
  {
    hide CoreInv;
  }

  lemma UppedHolder(s: System, x: Sid, p: Pc)
    requires CoreInv(s.core) && x in s.core.semas
    ensures Upped(s, x, p).holder == s.holder
  {
    hide CoreInv;
  }

  lemma ReleasingHoldsNot(s: System, l: nat)
    requires SystemInv(s) && At(s, Releasing(l))
    ensures l !in s.holder
  {
    StepEnabled(s);
    InsideAlone(s.core.pc, s.holder, s.core.semas, Me(s), OfLock(l));
  }

  /** A thread comes to test an ordinary semaphore by sema_down only. */
  lemma MyTesting(s: System, a: Action, id: nat)
    requires SystemInv(s) && Enabled(s, a)
    ensures IsTesting(Do(s, a).core.pc, Me(s), Plain(id)) ==>
      a == Down(id) || (!a.Down? && IsTesting(s.core.pc, Me(s), Plain(id)))
  {
    hide *;
    Basics(s);
    if a.Down? || a.Acquire? || a.Resume? || a.SleepDown? || a.SleepWait? {
      DownTesting(s, a, id);
    } else {
      NoTesting(s, a, id);
    }
  }

  lemma DownTesting(s: System, a: Action, id: nat)
    requires SystemInv(s) && Enabled(s, a)
    requires a.Down? || a.Acquire? || a.Resume? || a.SleepDown? || a.SleepWait?
    ensures IsTesting(Do(s, a).core.pc, Me(s), Plain(id)) ==>
      a == Down(id) || (!a.Down? && IsTesting(s.core.pc, Me(s), Plain(id)))
  {
    hide SystemInv, CoreInv, Tested, MayTest, CoreFrame;
    Basics(s);
    var p := s.core.pc[Me(s)];
    match a {
      case Down(i) =>
        TestKeepsAll(s, Plain(i), ForCaller);
        TestedFrame(s, Plain(i), ForCaller);
      case Acquire(l) =>
        TestKeepsAll(s, OfLock(l), ForLock(l));
        TestedFrame(s, OfLock(l), ForLock(l));
      case Resume =>
        ResumeKeeps(s);
        TestedFrame(s, p.s, p.why);
      case SleepDown =>
        LocksExist(s);
        TestKeepsAll(s, SleepList, ToInsert(p.deadline));
        TestedFrame(s, SleepList, ToInsert(p.deadline));
      case SleepWait =>
        PrivateExists(s);
        TestKeepsAll(s, Private(Me(s)), ToWake(p.deadline));
        TestedFrame(s, Private(Me(s)), ToWake(p.deadline));
    }
  }

  lemma NoTesting(s: System, a: Action, id: nat)
    requires SystemInv(s) && Enabled(s, a)
    requires !a.Down? && !a.Acquire? && !a.Resume? && !a.SleepDown? && !a.SleepWait?
    ensures IsTesting(Do(s, a).core.pc, Me(s), Plain(id)) ==> IsTesting(s.core.pc, Me(s), Plain(id))
  {
    hide SystemInv, CoreInv, MayTest, Schedule, Ticked, Yield, Block, Exit, Unblock;
    Basics(s);
    match a {
      case Tick => TickKeeps(s);
      case UpSema(id) => UpEnabled(s.core, Plain(id));
      case FinishRelease => FinishReleaseKeeps(s, s.core.pc[Me(s)].l);
      case ExitNow => ExitNowKeeps(s);
      case IdleWait => IdleWaitKeeps(s);
      case Launch => LaunchKeeps(s);
      case _ =>
    }
  }

  lemma StagesAfter(s: System, a: Action, stages: map<Tid, Stage>, ids: set<nat>, stages': map<Tid, Stage>, ids': set<nat>)
    requires SystemInv(s) && Enabled(s, a) && StagesInv(s, stages, ids) && MindsItsOwn(s, a, stages, ids) && ids <= ids'
    requires forall t | t in stages' && t != Me(s) :: t in stages && stages'[t] == stages[t]
    requires Me(s) in stages' ==>
      && StageOk(Do(s, a), Me(s), stages'[Me(s)]) && Downed(Do(s, a), Me(s), stages'[Me(s)])
      && stages'[Me(s)].id in ids'
      && forall t | t in stages && t != Me(s) :: stages[t].id != stages'[Me(s)].id
    requires forall t | t in stages && t != Me(s) :: t in stages'
    requires forall id | id in ids' && IsTesting(Do(s, a).core.pc, Me(s), Plain(id)) ::
      Me(s) in stages' && stages'[Me(s)].id == id && stages'[Me(s)].at == Waiting
    requires forall t, id | id in ids' && id !in ids :: !IsTesting(s.core.pc, t, Plain(id))
    ensures StagesInv(Do(s, a), stages', ids')
  {
    hide SystemInv, Enabled, Do, StageOk, Downed, MindsItsOwn, TestersInv;
    StepOthers(s, a);
    forall t | t in stages'
      ensures StageOk(Do(s, a), t, stages'[t]) && Downed(Do(s, a), t, stages'[t]) && stages'[t].id in ids'
    {
      if t != Me(s) {
        OtherStage(s, a, stages, ids, t);
      }
    }
    TestersAfter(s.core.pc, Do(s, a).core.pc, Me(s), stages, ids, stages', ids');
  }

  lemma TestersAfter(pc: map<Tid, Pc>, pc': map<Tid, Pc>, me: Tid, stages: map<Tid, Stage>, ids: set<nat>,
                     stages': map<Tid, Stage>, ids': set<nat>)
    requires TestersInv(pc, stages, ids)
    requires forall t | t in pc' && t != me :: (t in pc && pc'[t] == pc[t]) || !pc'[t].Testing?
    requires forall t | t in stages && t != me :: t in stages'
    requires forall t | t in stages' && t != me :: t in stages && stages'[t] == stages[t]
    requires forall id | id in ids' && IsTesting(pc', me, Plain(id)) ::
      me in stages' && stages'[me].id == id && stages'[me].at == Waiting
    requires forall t, id | id in ids' && id !in ids :: !IsTesting(pc, t, Plain(id))
    ensures TestersInv(pc', stages', ids')
  {
    forall t, id | IsTesting(pc', t, Plain(id)) && id in ids'
      ensures t in stages' && stages'[t].id == id && stages'[t].at == Waiting
    {
      if t != me {
        assert IsTesting(pc, t, Plain(id));
      }
    }
  }

  lemma SignalsAfter(s: System, a: Action, ids: set<nat>, pending: set<nat>, pending': set<nat>)
    requires SystemInv(s) && Enabled(s, a) && SignalsInv(s.core.semas, ids, pending)
    requires if a.UpSema? && a.id in ids then a.id in pending && pending' == pending - {a.id} else pending' == pending
    ensures SignalsInv(Do(s, a).core.semas, ids, pending')
  {
    hide SystemInv, Enabled, Do, Completes;
    forall id | id in ids
      ensures Signalled(Do(s, a).core.semas, pending', id)
    {
      assert Signalled(s.core.semas, pending, id);
      StepCounts(s, a, id);
    }
  }

  /** Lists do not depend on how far the waiting threads are. */
  lemma ListsSame(m: Monitors, m': Monitors)
    requires ListsInv(m) && m'.lists == m.lists && m'.entered == m.entered && m'.signalled == m.signalled
    requires m'.pending == m.pending && m'.lockOf == m.lockOf
    requires forall t | t in m.stages && m.stages[t].id in m.pending ::
      t in m'.stages && m'.stages[t].id == m.stages[t].id && m'.stages[t].c == m.stages[t].c
    requires forall t | t in m'.stages ::
      t in m.stages && m'.stages[t].id == m.stages[t].id && m'.stages[t].c == m.stages[t].c
    ensures ListsInv(m')
  {
  }

  /** A thread that has completed its down has been signalled. */
  lemma PastIsSignalled(m: Monitors, t: Tid)
    requires MonitorInv(m) && t in m.stages && Past(m.sys.core.pc, t, m.stages[t])
    ensures m.stages[t].id !in m.pending
  {
    hide SystemInv, ListsInv, StageOk, TestersInv, Past;
    var id := m.stages[t].id;
    assert Downed(m.sys, t, m.stages[t]);
    assert Signalled(m.sys.core.semas, m.pending, id);
    SemaBalance(m.sys, Plain(id));
  }

  lemma SemaBalance(s: System, x: Sid)
    requires SystemInv(s) && x in s.core.semas
    ensures Counted(s.core.semas[x], |Woken(s.core.sched, s.core.pc, x)|)
  {
    hide SchedInv, PlaceInv, WaitInv, MutexInv, WhyInv, SleepInv, Counted, Woken;
  }

  lemma OtherCallKeeps(m: Monitors, a: Action)
    requires MonitorInv(m) && Allowed(m, Other(a))
    ensures MonitorInv(m.(sys := Do(m.sys, a)))
  {
    hide SystemInv, Do, StageOk, Downed, Enabled, TestersInv, SignalsInv, ListsInv, Past, Completes;
    var s, me := m.sys, Me(m.sys);
    MonitorParts(m);
    StepKeeps(s, a);
    Minding(m, a);
    SignalsAfter(s, a, m.ids, m.pending, m.pending);
    ListsSame(m, m.(sys := Do(s, a)));
    if me in m.stages {
      TickStage(s, m.stages[me]);
    }
    forall id | id in m.ids && IsTesting(Do(s, a).core.pc, me, Plain(id))
      ensures me in m.stages && m.stages[me].id == id && m.stages[me].at == Waiting
    {
      MyTesting(s, a, id);
      TestersOf(s.core.pc, m.stages, m.ids, me, id);
    }
    StagesAfter(s, a, m.stages, m.ids, m.stages, m.ids);
  }

  lemma Minding(m: Monitors, a: Action)
    requires Allowed(m, Other(a))
    ensures MindsItsOwn(m.sys, a, m.stages, m.ids)
    ensures a.UpSema? ==> a.id !in m.ids
    ensures a.Down? ==> a.id !in m.ids
    ensures Me(m.sys) in m.stages ==> a == Tick
  {
  }

  lemma TestersOf(pc: map<Tid, Pc>, stages: map<Tid, Stage>, ids: set<nat>, t: Tid, id: nat)
    requires TestersInv(pc, stages, ids) && id in ids
    ensures IsTesting(pc, t, Plain(id)) ==> t in stages && stages[t].id == id && stages[t].at == Waiting
  {
  }

  lemma StageParts(s: System, t: Tid, st: Stage)
    requires StageOk(s, t, st)
    ensures t in s.core.pc && Plain(st.id) in s.core.semas && OfLock(st.l) in s.core.semas
  {
  }

  /** A timer interrupt leaves a thread in cond_wait where it is. */
  lemma TickStage(s: System, st: Stage)
    requires SystemInv(s) && Enabled(s, Tick) && StageOk(s, Me(s), st) && Downed(s, Me(s), st)
    ensures StageOk(Do(s, Tick), Me(s), st) && Downed(Do(s, Tick), Me(s), st)
  {
    hide SystemInv, Do, Enabled, Ticked;
    TickIs(s);
    TickKeeps(s);
    StepOthers(s, Tick);
    TickCounts(s, st.id);
  }

  lemma ContinueKeeps(m: Monitors)
    requires MonitorInv(m) && Allowed(m, Continue)
    ensures MonitorInv(Perform(m, Continue))
  {
    hide SystemInv, Do, StageOk, Downed, Enabled, NextSection, TestersInv, SignalsInv, ListsInv, Past, Completes;
    var s, me := m.sys, Me(m.sys);
    MonitorParts(m);
    ContinueEnabled(m);
    var st := m.stages[me];
    var a := NextSection(s, st);
    StepKeeps(s, a);
    SectionMinds(s, st, m.stages, m.ids);
    SignalsAfter(s, a, m.ids, m.pending, m.pending);
    StageParts(s, me, st);
    OwnStage(s, st);
    OwnDowned(s, st);
    if NextStage(s, st) == None {
      LeavingIsPast(s, st);
      PastIsSignalled(m, me);
    }
    NextStageIs(s, st);
    ListsSame(m, Perform(m, Continue));
    forall id | id in m.ids && IsTesting(Do(s, a).core.pc, me, Plain(id))
      ensures me in Advanced(m) && Advanced(m)[me].id == id && Advanced(m)[me].at == Waiting
    {
      SectionTests(s, st, id);
    }
    StagesAfter(s, a, m.stages, m.ids, Advanced(m), m.ids);
  }

  lemma SectionMinds(s: System, st: Stage, stages: map<Tid, Stage>, ids: set<nat>)
    requires Me(s) in s.core.pc && Me(s) in stages && stages[Me(s)] == st
    ensures MindsItsOwn(s, NextSection(s, st), stages, ids)
    ensures !NextSection(s, st).UpSema?
  {
  }

  lemma LeavingIsPast(s: System, st: Stage)
    requires Me(s) in s.core.pc && NextStage(s, st) == None
    ensures Past(s.core.pc, Me(s), st)
  {
  }

  lemma NextStageIs(s: System, st: Stage)
    requires Me(s) in s.core.pc
    ensures NextStage(s, st).Some? ==> NextStage(s, st).value.id == st.id && NextStage(s, st).value.c == st.c
  {
  }

  lemma OwnDowned(s: System, st: Stage)
    requires SystemInv(s) && StageOk(s, Me(s), st) && Downed(s, Me(s), st) && Enabled(s, NextSection(s, st))
    requires Plain(st.id) in s.core.semas
    ensures NextStage(s, st).Some? ==> Downed(Do(s, NextSection(s, st)), Me(s), NextStage(s, st).value)
  {
    hide SystemInv, Do, StageOk, Enabled, NextSection, Past, Completes, NextStage;
    Basics(s);
    OwnStage(s, st);
    StepCounts(s, NextSection(s, st), st.id);
  }

  /** In cond_wait a thread tests the semaphore of its own only. */
  lemma SectionTests(s: System, st: Stage, id: nat)
    requires SystemInv(s) && StageOk(s, Me(s), st) && Downed(s, Me(s), st) && Enabled(s, NextSection(s, st))
    requires IsTesting(Do(s, NextSection(s, st)).core.pc, Me(s), Plain(id))
    ensures NextStage(s, st).Some? && NextStage(s, st).value.id == id && NextStage(s, st).value.at == Waiting
  {
    hide SystemInv, Do, Enabled, NextSection, Completes, NextStage, Past;
    OwnStage(s, st);
    NextStageIs(s, st);
  }

  lemma WaitKeeps(m: Monitors, c: nat, l: nat, id: nat)
    requires MonitorInv(m) && Allowed(m, CondWait(c, l, id))
    ensures MonitorInv(Perform(m, CondWait(c, l, id)))
  {
    hide SystemInv, StageOk, Downed, TestersInv, SignalsInv, ListsInv, Past, Completes, StagesInv;
    var s, me, a := m.sys, Me(m.sys), InitSema(id, 0);
    MonitorParts(m);
    StepKeeps(s, a);
    FreshId(m, id);
    SignalsAfter(s, a, m.ids, m.pending, m.pending);
    NewWaiter(m, Do(s, a), me, c, l, id);
    NewSignal(Do(s, a).core.semas, m.ids, m.pending, id);
    NewStage(m, c, l, id);
  }

  /** A semaphore that does not exist yet is none of a waiter, and no thread tests it. */
  lemma FreshId(m: Monitors, id: nat)
    requires MonitorInv(m) && Plain(id) !in m.sys.core.semas
    ensures id !in m.ids && id !in m.pending && forall t :: !IsTesting(m.sys.core.pc, t, Plain(id))
    ensures forall t | t in m.stages :: m.stages[t].id != id
  {
    hide ListsInv, SchedInv, PlaceInv, CountInv, MutexInv, WhyInv, SleepInv, StageOk, Downed, TestersInv;
    forall i | i in m.ids
      ensures Plain(i) in m.sys.core.semas
    {
      assert Signalled(m.sys.core.semas, m.pending, i);
    }
  }

  lemma NewWaiter(m: Monitors, s': System, t: Tid, c: nat, l: nat, id: nat)
    requires ListsInv(m) && c in m.lists && t !in m.stages
    requires id !in m.pending && forall u | u in m.stages :: m.stages[u].id != id
    ensures c in m.entered && c in m.signalled
    ensures var w := Waiter(t, id);
      ListsInv(m.(sys := s', lists := m.lists[c := m.lists[c] + [w]], entered := m.entered[c := m.entered[c] + [w]],
                  stages := m.stages[t := Stage(c, l, id, Listed)], ids := m.ids + {id}, pending := m.pending + {id}))
  {
    var w := Waiter(t, id);
    var lists, stages, pending := m.lists[c := m.lists[c] + [w]], m.stages[t := Stage(c, l, id, Listed)], m.pending + {id};
    assert m.entered[c] + [w] == m.signalled[c] + (m.lists[c] + [w]);
    forall d, x | d in lists && x in lists[d]
      ensures Registered(stages, pending, d, x)
    {
      assert x == w || x in m.lists[d];
    }
    forall d, i | d in m.lists && 0 <= i < |m.lists[d]|
      ensures m.lists[d][i].id != id
    {
      assert Registered(m.stages, m.pending, d, m.lists[d][i]);
    }
    forall u | u in stages && stages[u].id in pending
      ensures Waiter(u, stages[u].id) in lists[stages[u].c]
    {
      assert u == t ==> lists[c][|m.lists[c]|] == w;
    }
  }

  lemma NewSignal(semas: map<Sid, Sema>, ids: set<nat>, pending: set<nat>, id: nat)
    requires SignalsInv(semas, ids, pending) && id !in ids
    requires Plain(id) in semas && semas[Plain(id)].initial == 0 && semas[Plain(id)].ups == 0
    ensures SignalsInv(semas, ids + {id}, pending + {id})
  {
    forall i | i in ids + {id}
      ensures Signalled(semas, pending + {id}, i)
    {
      assert i in ids ==> Signalled(semas, pending, i);
    }
  }

  lemma NewStage(m: Monitors, c: nat, l: nat, id: nat)
    requires MonitorInv(m) && Allowed(m, CondWait(c, l, id))
    ensures StagesInv(Do(m.sys, InitSema(id, 0)), m.stages[Me(m.sys) := Stage(c, l, id, Listed)], m.ids + {id})
  {
    hide SystemInv, SignalsInv, ListsInv, Completes;
    var s, me, a := m.sys, Me(m.sys), InitSema(id, 0);
    MonitorParts(m);
    FreshId(m, id);
    HeldLockExists(s, l);
    StagesAfter(s, a, m.stages, m.ids, m.stages[me := Stage(c, l, id, Listed)], m.ids + {id});
  }

  lemma HeldLockExists(s: System, l: nat)
    requires SystemInv(s) && l in s.holder
    ensures OfLock(l) in s.core.semas
  {
    LocksExist(s);
  }

  lemma SignalKeeps(m: Monitors, c: nat, l: nat)
    requires MonitorInv(m) && Allowed(m, CondSignal(c, l)) && m.lists[c] != []
    ensures MonitorInv(Perform(m, CondSignal(c, l)))
  {
    hide SystemInv, StageOk, Downed, TestersInv, SignalsInv, ListsInv, Past, Completes, StagesInv;
    var s, w := m.sys, m.lists[c][0];
    var a := UpSema(w.id);
    MonitorParts(m);
    FirstIsThere(m, c);
    StepKeeps(s, a);
    SignalsAfter(s, a, m.ids, m.pending, m.pending - {w.id});
    UniqueIds(s, m.stages, m.ids);
    FirstLeaves(m, Do(s, a), c);
    SignalStages(m, w.id);
  }

  lemma UniqueIds(s: System, stages: map<Tid, Stage>, ids: set<nat>)
    requires StagesInv(s, stages, ids)
    ensures forall t, u | t in stages && u in stages && stages[t].id == stages[u].id :: t == u
  {
    hide StageOk, Downed, TestersInv;
  }

  /** Nobody else on a list has the semaphore of the first waiter of this one. */
  lemma OnlyFirst(m: Monitors, c: nat, d: nat, x: Waiter)
    requires ListsInv(m) && c in m.lists && m.lists[c] != [] && d in m.lists
    requires forall t, u | t in m.stages && u in m.stages && m.stages[t].id == m.stages[u].id :: t == u
    requires x in if d == c then m.lists[c][1..] else m.lists[d]
    ensures Registered(m.stages, m.pending - {m.lists[c][0].id}, d, x)
  {
    var w := m.lists[c][0];
    assert Registered(m.stages, m.pending, c, w);
    assert Registered(m.stages, m.pending, d, x);
    if d == c {
      var i :| 0 <= i < |m.lists[c][1..]| && m.lists[c][1..][i] == x;
      assert m.lists[c][i + 1].id != m.lists[c][0].id;
    }
  }

  lemma FirstLeaves(m: Monitors, s': System, c: nat)
    requires ListsInv(m) && c in m.lists && m.lists[c] != []
    requires forall t, u | t in m.stages && u in m.stages && m.stages[t].id == m.stages[u].id :: t == u
    ensures c in m.signalled
    ensures var w := m.lists[c][0];
      ListsInv(m.(sys := s', lists := m.lists[c := m.lists[c][1..]],
                  signalled := m.signalled[c := m.signalled[c] + [w]], pending := m.pending - {w.id}))
  {
    hide Registered;
    var w := m.lists[c][0];
    var lists, pending := m.lists[c := m.lists[c][1..]], m.pending - {w.id};
    assert m.lists[c] == [w] + m.lists[c][1..];
    assert m.entered[c] == m.signalled[c] + [w] + m.lists[c][1..];
    forall d, x | d in lists && x in lists[d]
      ensures Registered(m.stages, pending, d, x)
    {
      OnlyFirst(m, c, d, x);
    }
    forall t | t in m.stages && m.stages[t].id in pending
      ensures Waiter(t, m.stages[t].id) in lists[m.stages[t].c]
    {
      assert Waiter(t, m.stages[t].id) in m.lists[m.stages[t].c];
    }
  }

  lemma SignalStages(m: Monitors, id: nat)
    requires MonitorInv(m) && InCode(m.sys) && !Waits(m) && Plain(id) in m.sys.core.semas
    ensures Enabled(m.sys, UpSema(id)) && StagesInv(Do(m.sys, UpSema(id)), m.stages, m.ids)
  {
    hide SystemInv, Do, StageOk, Downed, TestersInv, SignalsInv, ListsInv, Past, Completes;
    var s, a := m.sys, UpSema(id);
    MonitorParts(m);
    forall i | i in m.ids
      ensures !IsTesting(Do(s, a).core.pc, Me(s), Plain(i))
    {
      MyTesting(s, a, i);
      TestersOf(s.core.pc, m.stages, m.ids, Me(s), i);
    }
    StagesAfter(s, a, m.stages, m.ids, m.stages, m.ids);
  }

  lemma NewCondition(m: Monitors, c: nat, l: nat)
    requires MonitorInv(m) && c !in m.lists
    ensures MonitorInv(m.(lists := m.lists[c := []], lockOf := m.lockOf[c := l], entered := m.entered[c := []], signalled := m.signalled[c := []]))
  {
    hide SystemInv, StagesInv, SignalsInv;
  }

  /** Every step of a program with condition variables keeps the invariant. */
  lemma PerformKeeps(m: Monitors, call: Call)
    requires MonitorInv(m) && Allowed(m, call)
    ensures MonitorInv(Perform(m, call))
  {
    hide MonitorInv, Do, Enabled, Advanced, NextSection, InCode, Holds, LeavesAlone;
    match call {
      case CondInit(c, l) => NewCondition(m, c, l);
      case CondWait(c, l, id) => WaitKeeps(m, c, l, id);
      case Continue => ContinueKeeps(m);
      case CondSignal(c, l) =>
        if m.lists[c] != [] {
          SignalKeeps(m, c, l);
        }
      case Other(a) => OtherCallKeeps(m, a);
    }
  }

  lemma SectionOf(m: Monitors, call: Call)
    requires MonitorInv(m) && Allowed(m, call)
    ensures call.CondWait? ==> Section(m, call) == Some(InitSema(call.id, 0))
    ensures call.Continue? ==> Waits(m) && Me(m.sys) in m.sys.core.pc && Section(m, call) == Some(NextSection(m.sys, m.stages[Me(m.sys)]))
    ensures call.CondSignal? ==>
      call.c in m.lists && Section(m, call) == if m.lists[call.c] == [] then None else Some(UpSema(m.lists[call.c][0].id))
  {
    hide MonitorInv, Enabled, NextSection, InCode, Holds;
    if call.Continue? {
      ContinueEnabled(m);
    }
  }

  /** cond_wait begins by making a semaphore with the value 0 and joining the back of the list, with the lock
      still held. */
  lemma WaitEnters(m: Monitors, c: nat, l: nat, id: nat)
    requires MonitorInv(m) && Allowed(m, CondWait(c, l, id))
    ensures var (me, m') := (Me(m.sys), Perform(m, CondWait(c, l, id)));
      && c in m.lists && m'.lists == m.lists[c := m.lists[c] + [Waiter(me, id)]]
      && me in m'.stages && m'.stages == m.stages[me := Stage(c, l, id, Listed)] && id in m'.pending
      && Plain(id) in m'.sys.core.semas && m'.sys.core.semas[Plain(id)].value == 0
      && m'.sys.core.sched == m.sys.core.sched && Holds(m'.sys, l)
  {
    hide MonitorInv, SystemInv, Section;
    SectionOf(m, CondWait(c, l, id));
    MonitorParts(m);
  }

  /** cond_signal takes the first waiter off the list, if there is one, and ups its semaphore: if the waiter is
      blocked it joins the ready list, and if it is not it will find the value 1. */
  lemma SignalWakes(m: Monitors, c: nat, l: nat)
    requires MonitorInv(m) && Allowed(m, CondSignal(c, l))
    ensures c in m.lists
    ensures var (m', w) := (Perform(m, CondSignal(c, l)), m.lists[c]);
      if w == [] then m' == m
      else
        && m'.lists == m.lists[c := w[1..]] && m'.stages == m.stages && w[0].id !in m'.pending
        && Plain(w[0].id) in m'.sys.core.semas && m'.sys.core.semas[Plain(w[0].id)].value == 1
        && m'.sys.core.sched.current == m.sys.core.sched.current
        && m'.sys.core.sched.ready == m.sys.core.sched.ready + if IsBlocked(m.sys.core.sched, w[0].t) then [w[0].t] else []
  {
    hide MonitorInv, SystemInv, Section, Do, Enabled;
    SectionOf(m, CondSignal(c, l));
    MonitorParts(m);
    if m.lists[c] != [] {
      SignalSection(m, c);
    }
  }

  lemma SignalSection(m: Monitors, c: nat)
    requires MonitorInv(m) && c in m.lists && m.lists[c] != [] && Enabled(m.sys, UpSema(m.lists[c][0].id))
    ensures var (w, c0, c') := (m.lists[c][0], m.sys.core, Do(m.sys, UpSema(m.lists[c][0].id)).core);
      && Plain(w.id) in c'.semas && c'.semas[Plain(w.id)].value == 1 && c'.sched.current == c0.sched.current
      && c'.sched.ready == c0.sched.ready + if IsBlocked(c0.sched, w.t) then [w.t] else []
  {
    hide *;
    var w := m.lists[c][0];
    MonitorParts(m);
    FirstIsThere(m, c);
    RegisteredIs(m.stages, m.pending, c, w);
    StepLaws.StepSemas(m.sys, UpSema(w.id), Plain(w.id));
    StepLaws.StepSchedules(m.sys, UpSema(w.id));
    PendingValue(m, w.t);
    PendingWaiters(m, w.t);
    RaisedIs(m.sys, w.id, Do(m.sys, UpSema(w.id)), if IsBlocked(m.sys.core.sched, w.t) then [w.t] else []);
  }

  lemma RegisteredIs(stages: map<Tid, Stage>, pending: set<nat>, c: nat, w: Waiter)
    requires Registered(stages, pending, c, w)
    ensures w.t in stages && stages[w.t].id == w.id && w.id in pending
  {
  }

  lemma RaisedIs(s: System, id: nat, s': System, waiters: seq<Tid>)
    requires Me(s) in s.core.pc && Plain(id) in s.core.semas && s.core.semas[Plain(id)].value == 0
    requires s.core.semas[Plain(id)].waiters == waiters && |waiters| <= 1
    requires StepLaws.SemaStep(s, UpSema(id), s', Plain(id))
    requires StepLaws.Scheduled(s.core.sched, s'.core.sched, StepLaws.Joins(s, UpSema(id)), StepLaws.Switches(s, UpSema(id)))
    ensures Plain(id) in s'.core.semas && s'.core.semas[Plain(id)].value == 1
    ensures s'.core.sched.current == s.core.sched.current && s'.core.sched.ready == s.core.sched.ready + waiters
  {
  }

  /** Before the signal the semaphore of a waiter has the value 0, and nobody but the waiter waits for it. */
  lemma PendingValue(m: Monitors, t: Tid)
    requires MonitorInv(m) && t in m.stages && m.stages[t].id in m.pending
    ensures Plain(m.stages[t].id) in m.sys.core.semas && m.sys.core.semas[Plain(m.stages[t].id)].value == 0
  {
    hide SystemInv, ListsInv, StageOk, TestersInv, Past;
    var id := m.stages[t].id;
    assert Downed(m.sys, t, m.stages[t]);
    assert Signalled(m.sys.core.semas, m.pending, id);
    SemaBalance(m.sys, Plain(id));
  }

  lemma PendingWaiters(m: Monitors, t: Tid)
    requires MonitorInv(m) && t in m.stages && m.stages[t].id in m.pending && Plain(m.stages[t].id) in m.sys.core.semas
    ensures m.sys.core.semas[Plain(m.stages[t].id)].waiters == if IsBlocked(m.sys.core.sched, t) then [t] else []
  {
    hide *;
    MonitorParts(m);
    CoreOf(m.sys);
    OnlyItself(m, t);
    BlockedTests(m, t);
    WaitersAre(m.sys.core, Plain(m.stages[t].id), t);
  }

  lemma OnlyItself(m: Monitors, t: Tid)
    requires MonitorInv(m) && t in m.stages
    ensures forall u :: IsTesting(m.sys.core.pc, u, Plain(m.stages[t].id)) ==> u == t
  {
    hide SystemInv, SignalsInv, ListsInv, Downed, StageOk, TestersInv;
    forall u
      ensures IsTesting(m.sys.core.pc, u, Plain(m.stages[t].id)) ==> u == t
    {
      TestersOf(m.sys.core.pc, m.stages, m.ids, u, m.stages[t].id);
    }
  }

  lemma BlockedTests(m: Monitors, t: Tid)
    requires MonitorInv(m) && t in m.stages && m.stages[t].id in m.pending
    ensures IsBlocked(m.sys.core.sched, t) ==> IsTesting(m.sys.core.pc, t, Plain(m.stages[t].id))
  {
    hide *;
    MonitorParts(m);
    StageOf(m.sys, m.stages, m.ids, t);
    if Past(m.sys.core.pc, t, m.stages[t]) {
      PastIsSignalled(m, t);
    }
    StageTests(m.sys, t, m.stages[t]);
    BlockedPlace(m.sys, t);
  }

  lemma StageOf(s: System, stages: map<Tid, Stage>, ids: set<nat>, t: Tid)
    requires StagesInv(s, stages, ids) && t in stages
    ensures StageOk(s, t, stages[t]) && t in s.core.pc
  {
    hide Downed, TestersInv;
  }

  lemma StageTests(s: System, t: Tid, st: Stage)
    requires StageOk(s, t, st) && t in s.core.pc
    ensures var p := s.core.pc[t];
      (p.Testing? || p.Born? || p.IdleLoop?) && !Past(s.core.pc, t, st) ==> IsTesting(s.core.pc, t, Plain(st.id))
  {
  }

  lemma BlockedPlace(s: System, t: Tid)
    requires SystemInv(s) && t in s.core.pc
    ensures IsBlocked(s.core.sched, t) ==> s.core.pc[t].Testing? || s.core.pc[t].Born? || s.core.pc[t].IdleLoop?
  {
    hide SchedInv, MutexInv, WhyInv, SleepInv, CountInv, WaitInv;
  }

  lemma WaitersAre(c: Core, x: Sid, t: Tid)
    requires CoreInv(c) && x in c.semas && forall u :: IsTesting(c.pc, u, x) ==> u == t
    requires IsBlocked(c.sched, t) ==> IsTesting(c.pc, t, x)
    ensures c.semas[x].waiters == if IsBlocked(c.sched, t) then [t] else []
  {
    hide SchedInv, PlaceInv, CountInv;
    forall u | u in c.semas[x].waiters
      ensures u == t && IsBlocked(c.sched, t)
    {
      assert OnList(c.semas, x, u);
    }
    if IsBlocked(c.sched, t) {
      assert OnList(c.semas, x, t);
    }
    StepLaws.OneOnly(c.semas[x].waiters, t);
  }

  /** How far a thread is in cond_wait. */
  function Rank(st: Stage, p: Pc): nat {
    match st.at
    case Listed => 0
    case Unlocking => 1
    case Unlocked => 2
    case Waiting => if p.Testing? then 3 else 4
    case Relocking => if p.Testing? then 5 else 6
  }

  /** Each section takes a thread further on in cond_wait, and after the seventh out of it, unless it has to
      wait for its semaphore or for the lock: then it tests the same one again when it is woken. */
  lemma ContinueAdvances(m: Monitors)
    requires MonitorInv(m) && Allowed(m, Continue)
    ensures Me(m.sys) in m.stages && Me(m.sys) in m.sys.core.pc
    ensures var (me, m', st) := (Me(m.sys), Perform(m, Continue), m.stages[Me(m.sys)]);
      var aim := StepLaws.Aim(m.sys, NextSection(m.sys, st));
      && (me in m'.stages ==> me in m'.sys.core.pc && m'.stages[me].(at := st.at) == st)
      && (if aim.Some? && StepLaws.Value(m.sys.core, aim.value) == 0 then
            me in m'.stages && m'.sys.core.pc[me].Testing? && m'.sys.core.pc[me].s == aim.value
          else
            me !in m'.stages || Rank(m'.stages[me], m'.sys.core.pc[me]) > Rank(st, m.sys.core.pc[me]))
  {
    hide *;
    SectionOf(m, Continue);
    SectionRuns(m, Continue);
    ContinueStages(m);
    MonitorParts(m);
    ContinueEnabled(m);
    var (s, st) := (m.sys, m.stages[Me(m.sys)]);
    StepLaws.StepSchedules(s, NextSection(s, st));
    MyWhy(s);
    Advances(s, st);
  }

  lemma ContinueStages(m: Monitors)
    requires MonitorInv(m) && Allowed(m, Continue) && Waits(m) && Me(m.sys) in m.sys.core.pc
    ensures Me(m.sys) in m.stages
    ensures Perform(m, Continue).stages == match NextStage(m.sys, m.stages[Me(m.sys)])
                                           case Some(st) => m.stages[Me(m.sys) := st]
                                           case None => m.stages - {Me(m.sys)}
  {
    hide MonitorInv, SystemInv, Section, NextSection, Do, Enabled, NextStage;
  }

  lemma Advances(s: System, st: Stage)
    requires Me(s) in s.core.pc && StageOk(s, Me(s), st) && WhyOk(Me(s), s.core.pc[Me(s)], s.core.semas)
    ensures var (me, a) := (Me(s), NextSection(s, st));
      var (next, aim, pc') := (NextStage(s, st), StepLaws.Aim(s, a), StepLaws.Places(s, a));
      && me in pc' && (next.Some? ==> next.value.(at := st.at) == st)
      && (if aim.Some? && StepLaws.Value(s.core, aim.value) == 0 then
            next.Some? && pc'[me].Testing? && pc'[me].s == aim.value
          else
            next.None? || Rank(next.value, pc'[me]) > Rank(st, s.core.pc[me]))
  {
    hide WhyOk;
    match st.at
    case Listed =>
    case Unlocking =>
    case Unlocked =>
    case Waiting =>
    case Relocking =>
  }

  /** The waiters of a condition change only while the thread that runs holds the condition's lock. */
  lemma ListUnderLock(m: Monitors, call: Call, c: nat)
    requires MonitorInv(m) && Allowed(m, call) && c in m.lists
    ensures c in m.lockOf && c in Perform(m, call).lists && c in Perform(m, call).lockOf
    ensures Perform(m, call).lockOf[c] == m.lockOf[c]
    ensures Perform(m, call).lists[c] != m.lists[c] ==> Holds(m.sys, m.lockOf[c])
  {
    hide *;
    ConditionsHaveLocks(m);
    PerformLists(m, call);
    AllowedLocked(m, call);
  }

  lemma AllowedLocked(m: Monitors, call: Call)
    requires Allowed(m, call)
    ensures call.CondInit? ==> call.c !in m.lists
    ensures call.CondWait? || call.CondSignal? ==> call.c in m.lockOf && Holds(m.sys, m.lockOf[call.c])
  {
    hide Enabled, InCode, Holds, LeavesAlone;
  }

  lemma PerformLists(m: Monitors, call: Call)
    requires MonitorInv(m) && Allowed(m, call)
    ensures Perform(m, call).lockOf == if call.CondInit? then m.lockOf[call.c := call.l] else m.lockOf
    ensures call.Continue? || call.Other? ==> Perform(m, call).lists == m.lists
    ensures call.CondInit? ==> Perform(m, call).lists == m.lists[call.c := []]
    ensures call.CondWait? || call.CondSignal? ==>
      call.c in m.lists && Perform(m, call).lists == m.lists[call.c := Perform(m, call).lists[call.c]]
  {
    hide MonitorInv, Do, Enabled, Holds, Advanced, Section, NextSection, InCode, LeavesAlone, Me;
  }

  lemma ConditionsHaveLocks(m: Monitors)
    requires MonitorInv(m)
    ensures m.lockOf.Keys == m.lists.Keys
  {
    hide SystemInv, StagesInv, SignalsInv;
  }

  // ----- What holds in every run --------------------------------------------------------------------

  function NoConditions(): Monitors {
    Monitors(Boot(), map[], map[], map[], {}, {}, map[], map[])
  }

  lemma NoConditionsInv()
    ensures MonitorInv(NoConditions())
  {
    hide SystemInv;
    BootInv();
  }

  /** The state after a run from boot; None when a call was not allowed. */
  function AfterCalls(run: seq<Call>): (r: Option<Monitors>)
    ensures r.Some? ==> MonitorInv(r.value)
  {
    if run == [] then
      NoConditionsInv();
      Some(NoConditions())
    else
      var before := AfterCalls(run[..|run| - 1]);
      var call := run[|run| - 1];
      if before.Some? && Allowed(before.value, call) then
        PerformKeeps(before.value, call);
        Some(Perform(before.value, call))
      else None
  }

  /** Whatever is allowed may be the next call of a run. */
  lemma CallsGoOn(run: seq<Call>, call: Call)
    requires AfterCalls(run).Some? && Allowed(AfterCalls(run).value, call)
    ensures AfterCalls(run + [call]) == Some(Perform(AfterCalls(run).value, call))
  {
    hide MonitorInv, Allowed, Perform;
    assert (run + [call])[..|run|] == run;
  }

  /** The steps of the kernel in a run with condition variables. */
  function StepsOf(run: seq<Call>): seq<Action>
    requires AfterCalls(run).Some?
  {
    if run == [] then []
    else
      var (before, call) := (run[..|run| - 1], run[|run| - 1]);
      StepsOf(before) + match Section(AfterCalls(before).value, call) case Some(a) => [a] case None => []
  }

  /** Taken together they are a run of the kernel that ends in the same state: whatever holds in runs of the
      kernel holds here. */
  lemma {:induction false} CallsAreSteps(run: seq<Call>)
    requires AfterCalls(run).Some?
    ensures After(StepsOf(run)) == Some(AfterCalls(run).value.sys)
  {
    hide MonitorInv, SystemInv, Section, Allowed, Enabled, Do, After, Perform;
    if run == [] {
      NothingRun();
    } else {
      var (before, call) := (run[..|run| - 1], run[|run| - 1]);
      CallsAreSteps(before);
      var m := AfterCalls(before).value;
      SectionRuns(m, call);
      if Section(m, call).Some? {
        RunGoesOn(StepsOf(before), Section(m, call).value);
      }
      assert StepsOf(before) + [] == StepsOf(before);
    }
  }

  lemma NothingRun()
    ensures After([]) == Some(Boot()) && AfterCalls([]) == Some(NoConditions())
  {
    NoConditionsInv();
    hide SystemInv;
  }


  lemma SectionRuns(m: Monitors, call: Call)
    requires MonitorInv(m) && Allowed(m, call)
    ensures Perform(m, call).sys == match Section(m, call) case Some(a) => Do(m.sys, a) case None => m.sys
  {
    hide MonitorInv, SystemInv, Enabled, Do, Advanced, NextSection, InCode, Holds, LeavesAlone;
  }

  /** cond_signal wakes the waiters of a condition in the order in which they came: those that were
      signalled are the first of those that have entered, and the others are on the list. */
  lemma SignalledInOrder(run: seq<Call>, c: nat)
    requires AfterCalls(run).Some? && c in AfterCalls(run).value.lists
    ensures var m := AfterCalls(run).value;
      c in m.entered && c in m.signalled && m.entered[c] == m.signalled[c] + m.lists[c]
  {
    hide SystemInv, StagesInv, SignalsInv, AfterCalls;
  }

  /** No thread comes out of the wait in cond_wait without a signal of its own. */
  lemma NobodyReturnsUnsignalled(run: seq<Call>, t: Tid)
    requires AfterCalls(run).Some? && t in AfterCalls(run).value.stages
    ensures var m := AfterCalls(run).value;
      Past(m.sys.core.pc, t, m.stages[t]) ==>
        m.stages[t].id !in m.pending && m.stages[t].c in m.lists
        && Waiter(t, m.stages[t].id) !in m.lists[m.stages[t].c]
  {
    hide *;
    var m := AfterCalls(run).value;
    if Past(m.sys.core.pc, t, m.stages[t]) {
      PastIsSignalled(m, t);
    }
    OffTheList(m, t);
  }

  lemma OffTheList(m: Monitors, t: Tid)
    requires MonitorInv(m) && t in m.stages
    ensures m.stages[t].c in m.lists
    ensures m.stages[t].id !in m.pending ==> Waiter(t, m.stages[t].id) !in m.lists[m.stages[t].c]
  {
    hide SystemInv, StagesInv, SignalsInv;
    var (c, w) := (m.stages[t].c, Waiter(t, m.stages[t].id));
    assert c in m.lists && w in m.lists[c] ==> Registered(m.stages, m.pending, c, w);
  }

  /** cond_wait returns with the lock held again, to a thread that was signalled and is on no list. */
  lemma WaitReturnsLocked(m: Monitors)
    requires MonitorInv(m) && Allowed(m, Continue)
    ensures Me(m.sys) in m.stages
    ensures var (me, m') := (Me(m.sys), Perform(m, Continue));
      me !in m'.stages ==>
        && me in m'.sys.core.pc && m'.sys.core.pc[me].Free?
        && m.stages[me].l in m'.sys.holder && m'.sys.holder[m.stages[me].l] == me
        && m.stages[me].id !in m'.pending
  {
    hide SystemInv, StageOk, Downed, Do, Enabled, NextSection, TestersInv, SignalsInv, ListsInv, Past, Completes;
    var me := Me(m.sys);
    MonitorParts(m);
    ContinueEnabled(m);
    OwnStage(m.sys, m.stages[me]);
    if NextStage(m.sys, m.stages[me]) == None {
      LeavingIsPast(m.sys, m.stages[me]);
      PastIsSignalled(m, me);
    }
  }

  /** No signal is lost: a thread that has been signalled and has not come out of the wait yet is not
      blocked, and the value it is about to find is 1; until it is signalled it is on the list. */
  lemma NoSignalLost(run: seq<Call>, t: Tid)
    requires AfterCalls(run).Some? && t in AfterCalls(run).value.stages
    ensures var m := AfterCalls(run).value;
      var st := m.stages[t];
      && Plain(st.id) in m.sys.core.semas && st.c in m.lists
      && (Waiter(t, st.id) in m.lists[st.c] <==> st.id in m.pending)
      && m.sys.core.semas[Plain(st.id)].value == One(st.id !in m.pending && !Past(m.sys.core.pc, t, st))
      && (st.id !in m.pending && st.at.Waiting? ==> !IsBlocked(m.sys.core.sched, t))
  {
    hide *;
    var m := AfterCalls(run).value;
    OffTheList(m, t);
    OnTheList(m, t);
    WaiterValue(m, t);
    SignalledGoesOn(m, t);
  }

  lemma OnTheList(m: Monitors, t: Tid)
    requires MonitorInv(m) && t in m.stages
    ensures m.stages[t].c in m.lists
    ensures m.stages[t].id in m.pending ==> Waiter(t, m.stages[t].id) in m.lists[m.stages[t].c]
  {
    hide SystemInv, StagesInv, SignalsInv;
  }

  /** The semaphore of a waiter has the value 1 from the signal to the end of the wait, and 0 otherwise. */
  lemma WaiterValue(m: Monitors, t: Tid)
    requires MonitorInv(m) && t in m.stages
    ensures var st := m.stages[t];
      && Plain(st.id) in m.sys.core.semas
      && m.sys.core.semas[Plain(st.id)].value == One(st.id !in m.pending && !Past(m.sys.core.pc, t, st))
  {
    hide SystemInv, ListsInv, StageOk, TestersInv, Past;
    var id := m.stages[t].id;
    assert Downed(m.sys, t, m.stages[t]);
    assert Signalled(m.sys.core.semas, m.pending, id);
    SemaBalance(m.sys, Plain(id));
    if Past(m.sys.core.pc, t, m.stages[t]) {
      PastIsSignalled(m, t);
    }
  }

  lemma SignalledGoesOn(m: Monitors, t: Tid)
    requires MonitorInv(m) && t in m.stages
    ensures m.stages[t].id !in m.pending && m.stages[t].at.Waiting? ==> !IsBlocked(m.sys.core.sched, t)
  {
    hide SystemInv, SignalsInv, ListsInv, Downed, TestersInv, Woken, IsBlocked;
    var st := m.stages[t];
    assert StageOk(m.sys, t, st);
    WaiterValue(m, t);
    SemaBalance(m.sys, Plain(st.id));
    BlockedIsListed(m.sys, Plain(st.id), t);
    OnlyTester(m, t);
  }

  /** A thread that is blocked in sema_down is on the wait list. */
  lemma BlockedIsListed(s: System, x: Sid, t: Tid)
    requires SystemInv(s) && x in s.core.semas && t in s.core.pc
    ensures IsBlocked(s.core.sched, t) ==> !s.core.pc[t].Free?
    ensures IsBlocked(s.core.sched, t) && IsTesting(s.core.pc, t, x) ==> s.core.semas[x].waiters != []
  {
    hide SchedInv, MutexInv, WhyInv, SleepInv, CountInv, Distinct;
    if IsBlocked(s.core.sched, t) && IsTesting(s.core.pc, t, x) {
      assert OnList(s.core.semas, x, t);
    }
  }

  lemma OnlyTester(m: Monitors, t: Tid)
    requires MonitorInv(m) && t in m.stages
    ensures IsBlocked(m.sys.core.sched, t) ==> Woken(m.sys.core.sched, m.sys.core.pc, Plain(m.stages[t].id)) == {}
  {
    hide SystemInv, SignalsInv, ListsInv, Downed, StageOk, IsBlocked, TestersInv;
    var id := m.stages[t].id;
    forall u
      ensures IsTesting(m.sys.core.pc, u, Plain(id)) ==> u == t
    {
      TestersOf(m.sys.core.pc, m.stages, m.ids, u, id);
    }
  }
}
