/** Semaphores of threads/synch.c on top of the scheduler, as sections that run with interrupts off.
    A thread that blocks in sema_down and the same thread testing the value again later are two
    sections, between which any other sections may run. */
module Semaphores {
  import opened Scheduler

  /** The semaphores of the kernel: ordinary ones, the one inside each lock, the one that guards the
      list of sleeping threads, and the one on the stack of a thread that sleeps. */
  datatype Sid = Plain(id: nat) | OfLock(lock: nat) | SleepList | Private(owner: Tid)

  /** struct semaphore, with its initial value and a count of the completed operations. */
  datatype Sema = Sema(value: nat, waiters: seq<Tid>, initial: nat, ups: nat, downs: nat)

  /** What a thread that is inside sema_down does after it. */
  datatype Why = ForCaller | ForLock(l: nat) | ToInsert(deadline: int) | ToWake(deadline: int)

  /** Where a thread is between two sections. */
  datatype Pc =
    | Free                              // in code of its own
    | Testing(s: Sid, why: Why)         // in the loop of sema_down
    | Born                              // created, not yet unblocked
    | Creating(child: Tid)              // in thread_create, before thread_unblock
    | IdleStart | IdleLoop              // in idle, before and after it sets idle_thread
    | SettingHolder(l: nat)             // in lock_acquire, after sema_down
    | Releasing(l: nat)                 // in lock_release, before sema_up
    | Starting(deadline: int)           // in timer_sleep, before sema_down of the list's semaphore
    | Inserting(deadline: int)          // in timer_sleep, relinking the list of sleeping threads
    | Inserted(deadline: int)           // in timer_sleep, before sema_up of the list's semaphore
    | AboutToWait(deadline: int)        // in timer_sleep, before sema_down of its own semaphore

  datatype Core = Core(sched: Sched, semas: map<Sid, Sema>, pc: map<Tid, Pc>)

  /** The places between which a thread moves without help of this module. */
  predicate Ordinary(p: Pc) {
    p.Free? || p.SettingHolder? || p.Releasing? || p.Starting? || p.Inserting? || p.Inserted? || p.AboutToWait?
  }

  function Cur(c: Core): Tid {
    c.sched.current
  }

  // ----- Invariants -------------------------------------------------------------------------------

  predicate IsTesting(pc: map<Tid, Pc>, t: Tid, s: Sid) {
    t in pc && pc[t].Testing? && pc[t].s == s
  }

  predicate IsBlocked(b: Sched, t: Tid) {
    t in b.status && b.status[t].Blocked?
  }

  predicate OnList(semas: map<Sid, Sema>, s: Sid, t: Tid) {
    s in semas && t in semas[s].waiters
  }

  predicate IsCreating(pc: map<Tid, Pc>, t: Tid, child: Tid) {
    t in pc && pc[t].Creating? && pc[t].child == child
  }

  /** Why threads are blocked, and who may unblock them. */
  ghost predicate PlaceInv(b: Sched, pc: map<Tid, Pc>) {
    && pc.Keys == b.status.Keys
    && (forall t | IsBlocked(b, t) :: pc[t].Testing? || pc[t].Born? || pc[t].IdleLoop?)
    && (forall t | t in pc :: pc[t].Born? ==> IsBlocked(b, t))
    && (forall t | t in pc && t in b.status && b.status[t].Dying? :: pc[t].Free? && t != b.current)
    && (forall t | t in pc :: pc[t].IdleStart? || pc[t].IdleLoop? ==> t == b.idleThread)
    && b.idleThread in pc && pc[b.idleThread] == (if b.idleKnown then IdleLoop else IdleStart)
    && (forall t, u | IsCreating(pc, t, u) :: u in pc && pc[u].Born?)
    && (forall t, t', u | IsCreating(pc, t, u) && IsCreating(pc, t', u) :: t == t')
  }

  /** A wait list holds exactly the blocked threads that test its semaphore, once each. */
  ghost predicate WaitInv(b: Sched, pc: map<Tid, Pc>, semas: map<Sid, Sema>) {
    && (forall t | t in pc :: pc[t].Testing? ==> pc[t].s in semas)
    && (forall s | s in semas :: Distinct(semas[s].waiters))
    && (forall s, t :: OnList(semas, s, t) <==> IsTesting(pc, t, s) && IsBlocked(b, t))
  }

  /** The threads that were woken and have not tested the value again yet. */
  ghost function Woken(b: Sched, pc: map<Tid, Pc>, s: Sid): set<Tid> {
    set t | t in pc && IsTesting(pc, t, s) && !IsBlocked(b, t)
  }

  /** No wake-up is lost: while threads wait, each unit of the value has a woken thread that will
      test it. */
  predicate Counted(sema: Sema, woken: nat) {
    && sema.value + sema.downs == sema.initial + sema.ups
    && (sema.waiters != [] ==> sema.value <= woken)
  }

  ghost predicate CountInv(b: Sched, pc: map<Tid, Pc>, semas: map<Sid, Sema>) {
    forall s | s in semas :: Counted(semas[s], |Woken(b, pc, s)|)
  }

  ghost predicate CoreInv(c: Core) {
    && SchedInv(c.sched)
    && PlaceInv(c.sched, c.pc)
    && WaitInv(c.sched, c.pc, c.semas)
    && CountInv(c.sched, c.pc, c.semas)
  }

  // ----- Sections ---------------------------------------------------------------------------------

  /** sema_up. The assertion of thread_unblock, that the thread is blocked, never fires. */
  function Up(c: Core, s: Sid): Core
    requires s in c.semas
    requires c.semas[s].waiters != [] ==> IsBlocked(c.sched, c.semas[s].waiters[0])
  {
    var sema := c.semas[s];
    if sema.waiters != [] then
      c.(sched := Unblock(c.sched, sema.waiters[0]),
         semas := c.semas[s := sema.(waiters := sema.waiters[1..], value := sema.value + 1, ups := sema.ups + 1)])
    else
      c.(semas := c.semas[s := sema.(value := sema.value + 1, ups := sema.ups + 1)])
  }

  /** One round of the loop of sema_down: the first, or the one after the thread was woken. */
  function Test(c: Core, s: Sid, why: Why, after: Pc): Core
    requires s in c.semas && SomeoneToRun(c.sched)
  {
    var sema := c.semas[s];
    if sema.value == 0 then
      c.(sched := Block(c.sched), semas := c.semas[s := sema.(waiters := sema.waiters + [Cur(c)])],
         pc := c.pc[Cur(c) := Testing(s, why)])
    else
      c.(semas := c.semas[s := sema.(value := sema.value - 1, downs := sema.downs + 1)], pc := c.pc[Cur(c) := after])
  }

  /** sema_try_down, when it succeeds; when it fails it changes nothing. */
  function TryDown(c: Core, s: Sid): Core
    requires s in c.semas && c.semas[s].value > 0
  {
    c.(semas := c.semas[s := c.semas[s].(value := c.semas[s].value - 1, downs := c.semas[s].downs + 1)])
  }

  /** sema_init, of a semaphore that no thread is testing. */
  function Init(c: Core, s: Sid, value: nat): Core {
    c.(semas := c.semas[s := Sema(value, [], value, 0, 0)])
  }

  function SetPc(c: Core, p: Pc): Core {
    c.(pc := c.pc[Cur(c) := p])
  }

  function YieldCpu(c: Core): Core
    requires Cur(c) in c.sched.status
  {
    c.(sched := Yield(c.sched))
  }

  /** thread_exit; the thread that runs next frees the page of this one. */
  function ExitThread(c: Core): Core
    requires SomeoneToRun(c.sched)
  {
    var sched := Exit(c.sched);
    c.(sched := sched, pc := if Cur(c) in sched.status then c.pc else c.pc - {Cur(c)})
  }

  /** thread_create up to init_thread, and its thread_unblock. */
  function CreateThread(c: Core, t: Tid): Core {
    c.(sched := Create(c.sched, t), pc := c.pc[t := Born][Cur(c) := Creating(t)])
  }

  function LaunchThread(c: Core): Core
    requires Cur(c) in c.pc && c.pc[Cur(c)].Creating? && IsBlocked(c.sched, c.pc[Cur(c)].child)
  {
    var t := c.pc[Cur(c)].child;
    c.(sched := Unblock(c.sched, t), pc := c.pc[t := Free][Cur(c) := Free])
  }

  function IdleBegins(c: Core): Core {
    c.(sched := BecomeIdle(c.sched), pc := c.pc[Cur(c) := IdleLoop])
  }

  function IdleBlocks(c: Core): Core
    requires SomeoneToRun(c.sched)
  {
    c.(sched := Block(c.sched))
  }

  // ----- What the scheduler's sections do to the thread table --------------------------------------

  /** Only the current thread can have become blocked; only idle can have stopped being so. */
  predicate StatusStep(b: Sched, b': Sched) {
    && b'.status.Keys == b.status.Keys && b'.idleKnown == b.idleKnown && b'.idleThread == b.idleThread
    && (forall t | t in b.status && t != b.current :: b'.status[t].Blocked? ==> b.status[t].Blocked?)
    && (forall t | t in b.status && t != b.idleThread :: b.status[t].Blocked? ==> b'.status[t].Blocked?)
    && (forall t | t in b.status && b'.status[t].Dying? :: b.status[t].Dying? && t != b'.current)
  }

  lemma BlockStatus(b: Sched)
    requires SchedInv(b) && b.current != b.idleThread
    ensures SomeoneToRun(b) && StatusStep(b, Block(b)) && IsBlocked(Block(b), b.current)
  {
    BlockKeeps(b);
    BlockedBetween(b);
    hide Schedule, SchedInv, BetweenThreads, Distinct;
    ScheduleStatus(b.(status := b.status[b.current := Blocked]));
  }

  lemma BlockedBetween(b: Sched)
    requires SchedInv(b) && b.current != b.idleThread
    ensures BetweenThreads(b.(status := b.status[b.current := Blocked]))
    ensures b.current in b.status && (b.ready != [] ==> b.ready[0] in b.status && b.status[b.ready[0]].Ready? && b.ready[0] != b.current)
  {
  }

  lemma YieldStatus(b: Sched)
    requires SchedInv(b)
    ensures StatusStep(b, Yield(b)) && !Yield(b).status[b.current].Blocked?
  {
    hide Schedule;
    hide Distinct;
    if IsIdle(b, b.current) {
      SwitchStatus(b, b.(status := b.status[b.current := Ready]));
    } else {
      EnqueueKeeps(b, b.current);
      SwitchStatus(b, Enqueue(b, b.current));
    }
  }

  lemma SwitchStatus(b: Sched, b1: Sched)
    requires BetweenThreads(b1) && SchedInv(b) && b1.status == b.status[b.current := Ready]
    requires b1.current == b.current && b1.idleKnown == b.idleKnown && b1.idleThread == b.idleThread
    ensures SomeoneToRun(b1) && StatusStep(b, Schedule(b1))
    ensures b.current in Schedule(b1).status && !Schedule(b1).status[b.current].Blocked?
  {
    hide Schedule;
    hide Distinct;
    ScheduleStatus(b1);
  }

  // ----- sema_up ----------------------------------------------------------------------------------

  /** The assertion of thread_unblock holds when sema_up calls it. */
  lemma WaiterIsBlocked(c: Core, s: Sid, t: Tid)
    requires CoreInv(c) && OnList(c.semas, s, t)
    ensures IsBlocked(c.sched, t) && IsTesting(c.pc, t, s) && t != c.sched.idleThread && t != Cur(c)
  {
  }

  lemma UpEnabled(c: Core, s: Sid)
    requires CoreInv(c) && s in c.semas
    ensures c.semas[s].waiters != [] ==> IsBlocked(c.sched, c.semas[s].waiters[0])
  {
    if c.semas[s].waiters != [] {
      WaiterIsBlocked(c, s, c.semas[s].waiters[0]);
    }
  }

  lemma UpKeeps(c: Core, s: Sid)
    requires CoreInv(c) && s in c.semas
    ensures c.semas[s].waiters != [] ==> IsBlocked(c.sched, c.semas[s].waiters[0])
    ensures CoreInv(Up(c, s))
  {
    hide SchedInv, PlaceInv, WaitInv, CountInv, Unblock;
    UpEnabled(c, s);
    var w, semas := c.semas[s].waiters, Up(c, s).semas;
    if w != [] {
      WaiterIsBlocked(c, s, w[0]);
      UnblockKeeps(c.sched, w[0]);
      UnblockPlaces(c.sched, c.pc, w[0]);
      UpWaits(c.sched, c.pc, c.semas, s, semas);
      UpCounts(c.sched, c.pc, c.semas, s, semas);
    } else {
      CountOf(c, s);
      SemaChanged(c.sched, c.pc, c.semas, s, semas);
    }
  }

  lemma CountOf(c: Core, s: Sid)
    requires CountInv(c.sched, c.pc, c.semas) && s in c.semas
    ensures Counted(c.semas[s], |Woken(c.sched, c.pc, s)|)
  {
  }

  lemma UnblockPlaces(b: Sched, pc: map<Tid, Pc>, t: Tid)
    requires PlaceInv(b, pc) && IsBlocked(b, t) && pc[t].Testing?
    ensures PlaceInv(Unblock(b, t), pc)
  {
  }

  lemma UpWaits(b: Sched, pc: map<Tid, Pc>, semas: map<Sid, Sema>, s: Sid, semas': map<Sid, Sema>)
    requires WaitInv(b, pc, semas) && s in semas && semas[s].waiters != [] && IsBlocked(b, semas[s].waiters[0])
    requires semas'.Keys == semas.Keys && semas'[s].waiters == semas[s].waiters[1..]
    requires forall x | x in semas && x != s :: semas'[x] == semas[x]
    ensures WaitInv(Unblock(b, semas[s].waiters[0]), pc, semas')
  {
    var t := semas[s].waiters[0];
    FrontLeaves(semas[s].waiters);
    hide Distinct;
    assert OnList(semas, s, t);
    forall x, u
      ensures OnList(semas', x, u) <==> OnList(semas, x, u) && u != t
    {
      assert OnList(semas, x, t) ==> x == s;
    }
  }

  lemma UpCounts(b: Sched, pc: map<Tid, Pc>, semas: map<Sid, Sema>, s: Sid, semas': map<Sid, Sema>)
    requires CountInv(b, pc, semas) && s in semas && semas[s].waiters != []
    requires IsBlocked(b, semas[s].waiters[0]) && IsTesting(pc, semas[s].waiters[0], s)
    requires semas'.Keys == semas.Keys && forall x | x in semas && x != s :: semas'[x] == semas[x]
    requires semas'[s] == semas[s].(waiters := semas[s].waiters[1..], value := semas[s].value + 1, ups := semas[s].ups + 1)
    ensures CountInv(Unblock(b, semas[s].waiters[0]), pc, semas')
  {
    var t := semas[s].waiters[0];
    var b' := Unblock(b, t);
    forall x | x in semas
      ensures Woken(b', pc, x) == if x == s then Woken(b, pc, x) + {t} else Woken(b, pc, x)
    {
    }
    assert t !in Woken(b, pc, s);
  }

  /** A change to one semaphore only, whose wait list stays as it is. */
  lemma SemaChanged(b: Sched, pc: map<Tid, Pc>, semas: map<Sid, Sema>, s: Sid, semas': map<Sid, Sema>)
    requires WaitInv(b, pc, semas) && CountInv(b, pc, semas)
    requires s in semas && semas'.Keys == semas.Keys && semas'[s].waiters == semas[s].waiters
    requires Counted(semas'[s], |Woken(b, pc, s)|)
    requires forall x | x in semas && x != s :: semas'[x] == semas[x]
    ensures WaitInv(b, pc, semas') && CountInv(b, pc, semas')
  {
    forall x, u
      ensures OnList(semas', x, u) <==> OnList(semas, x, u)
    {
    }
  }

  // ----- sema_down --------------------------------------------------------------------------------

  /** Who may test s: a thread that calls sema_down, or one that was woken in it. */
  predicate MayTest(c: Core, s: Sid) {
    && s in c.semas && Cur(c) in c.pc && Cur(c) != c.sched.idleThread
    && (Ordinary(c.pc[Cur(c)]) || IsTesting(c.pc, Cur(c), s))
  }

  lemma TestKeeps(c: Core, s: Sid, why: Why, after: Pc)
    requires CoreInv(c) && MayTest(c, s) && Ordinary(after)
    ensures SomeoneToRun(c.sched) && CoreInv(Test(c, s, why, after))
  {
    BlockKeeps(c.sched);
    if c.semas[s].value == 0 {
      TestBlocks(c, s, why, after);
    } else {
      TestSucceeds(c, s, why, after);
    }
  }

  lemma TestBlocks(c: Core, s: Sid, why: Why, after: Pc)
    requires CoreInv(c) && MayTest(c, s) && c.semas[s].value == 0 && SomeoneToRun(c.sched)
    ensures CoreInv(Test(c, s, why, after))
  {
    hide SchedInv, PlaceInv, WaitInv, CountInv, Block, StatusStep;
    BlockKeeps(c.sched);
    BlockStatus(c.sched);
    CurrentRuns(c);
    var me, b' := Cur(c), Block(c.sched);
    var pc' := c.pc[me := Testing(s, why)];
    var semas' := c.semas[s := c.semas[s].(waiters := c.semas[s].waiters + [me])];
    assert c.pc[me].Testing? ==> IsTesting(c.pc, me, s);
    hide Ordinary;
    BlockPlaces(c.sched, c.pc, b', me, Testing(s, why));
    BlockWaits(c.sched, c.pc, c.semas, s, b', pc', semas', me);
    BlockCounts(c.sched, c.pc, c.semas, s, b', pc', semas', me);
  }

  lemma TestSucceeds(c: Core, s: Sid, why: Why, after: Pc)
    requires CoreInv(c) && MayTest(c, s) && Ordinary(after) && c.semas[s].value > 0 && SomeoneToRun(c.sched)
    ensures CoreInv(Test(c, s, why, after))
  {
    hide SchedInv, PlaceInv, WaitInv, CountInv;
    CurrentRuns(c);
    var me := Cur(c);
    var pc' := c.pc[me := after];
    var semas' := c.semas[s := c.semas[s].(value := c.semas[s].value - 1, downs := c.semas[s].downs + 1)];
    assert c.pc[me].Testing? ==> IsTesting(c.pc, me, s);
    hide Ordinary;
    MovePlaces(c.sched, c.pc, me, after);
    DownWaits(c.sched, c.pc, c.semas, s, pc', semas', me, after);
    DownCounts(c.sched, c.pc, c.semas, s, pc', semas', me, after);
  }

  lemma CurrentRuns(c: Core)
    requires CoreInv(c)
    ensures Cur(c) in c.sched.status && !IsBlocked(c.sched, Cur(c)) && Cur(c) in c.pc && !c.pc[Cur(c)].Born?
  {
  }

  lemma BlockPlaces(b: Sched, pc: map<Tid, Pc>, b': Sched, me: Tid, p: Pc)
    requires PlaceInv(b, pc) && StatusStep(b, b') && me == b.current && me in pc && me != b.idleThread
    requires !pc[me].Born? && p.Testing?
    ensures PlaceInv(b', pc[me := p])
  {
    var pc' := pc[me := p];
    forall t, u | IsCreating(pc', t, u)
      ensures u in pc' && pc'[u].Born?
    {
      assert IsCreating(pc, t, u);
    }
    forall t, t', u | IsCreating(pc', t, u) && IsCreating(pc', t', u)
      ensures t == t'
    {
      assert IsCreating(pc, t, u) && IsCreating(pc, t', u);
    }
  }

  lemma BlockWaits(b: Sched, pc: map<Tid, Pc>, semas: map<Sid, Sema>, s: Sid,
                   b': Sched, pc': map<Tid, Pc>, semas': map<Sid, Sema>, me: Tid)
    requires PlaceInv(b, pc) && WaitInv(b, pc, semas) && s in semas && StatusStep(b, b') && IsBlocked(b', me)
    requires me == b.current && me in pc && me != b.idleThread && !IsBlocked(b, me)
    requires IsTesting(pc', me, s) && pc'.Keys == pc.Keys && forall t | t in pc && t != me :: pc'[t] == pc[t]
    requires semas'.Keys == semas.Keys && semas'[s].waiters == semas[s].waiters + [me]
    requires forall x | x in semas && x != s :: semas'[x] == semas[x]
    ensures WaitInv(b', pc', semas')
  {
    assert !OnList(semas, s, me);
    JoinsBack(semas[s].waiters, me);
    hide Distinct;
    forall x, t
      ensures OnList(semas', x, t) <==> IsTesting(pc', t, x) && IsBlocked(b', t)
    {
      assert OnList(semas', x, t) <==> OnList(semas, x, t) || (x == s && t == me);
      if t != me {
        assert IsTesting(pc', t, x) == IsTesting(pc, t, x);
        assert IsTesting(pc, t, x) ==> t != b.idleThread;
      }
    }
  }

  lemma JoinsBack(s: seq<Tid>, t: Tid)
    requires Distinct(s) && t !in s
    ensures Distinct(s + [t]) && forall x :: x in s + [t] <==> x in s || x == t
  {
  }

  lemma BlockCounts(b: Sched, pc: map<Tid, Pc>, semas: map<Sid, Sema>, s: Sid,
                    b': Sched, pc': map<Tid, Pc>, semas': map<Sid, Sema>, me: Tid)
    requires PlaceInv(b, pc) && CountInv(b, pc, semas) && s in semas && StatusStep(b, b') && IsBlocked(b', me)
    requires me == b.current && me in pc && (IsTesting(pc, me, s) || !pc[me].Testing?)
    requires pc'.Keys == pc.Keys && IsTesting(pc', me, s) && forall t | t in pc && t != me :: pc'[t] == pc[t]
    requires semas'.Keys == semas.Keys && semas[s].value == 0
    requires semas'[s] == semas[s].(waiters := semas'[s].waiters)
    requires forall x | x in semas && x != s :: semas'[x] == semas[x]
    ensures CountInv(b', pc', semas')
  {
    forall x | x in semas
      ensures Counted(semas'[x], |Woken(b', pc', x)|)
    {
      if x != s {
        SameWoken(b, pc, b', pc', x, me);
      }
    }
  }

  /** Threads other than the current one are woken or not as before. */
  lemma SameWoken(b: Sched, pc: map<Tid, Pc>, b': Sched, pc': map<Tid, Pc>, x: Sid, me: Tid)
    requires PlaceInv(b, pc) && StatusStep(b, b') && me == b.current && me in pc
    requires pc'.Keys == pc.Keys && forall t | t in pc && t != me :: pc'[t] == pc[t]
    requires (!IsTesting(pc, me, x) || IsBlocked(b, me)) && (!IsTesting(pc', me, x) || IsBlocked(b', me))
    ensures Woken(b', pc', x) == Woken(b, pc, x)
  {
    forall t
      ensures t in Woken(b', pc', x) <==> t in Woken(b, pc, x)
    {
      assert IsTesting(pc, t, x) ==> t != b.idleThread;
    }
  }

  lemma MovePlaces(b: Sched, pc: map<Tid, Pc>, me: Tid, after: Pc)
    requires PlaceInv(b, pc) && me in pc && me == b.current && me != b.idleThread && !pc[me].Born? && !IsBlocked(b, me)
    requires Ordinary(after)
    ensures PlaceInv(b, pc[me := after])
  {
    var pc' := pc[me := after];
    forall t, u | IsCreating(pc', t, u)
      ensures u in pc' && pc'[u].Born?
    {
      assert IsCreating(pc, t, u);
    }
    forall t, t', u | IsCreating(pc', t, u) && IsCreating(pc', t', u)
      ensures t == t'
    {
      assert IsCreating(pc, t, u) && IsCreating(pc, t', u);
    }
  }

  lemma DownWaits(b: Sched, pc: map<Tid, Pc>, semas: map<Sid, Sema>, s: Sid,
                  pc': map<Tid, Pc>, semas': map<Sid, Sema>, me: Tid, after: Pc)
    requires WaitInv(b, pc, semas) && s in semas && me in pc && !IsBlocked(b, me)
    requires pc' == pc[me := after] && Ordinary(after)
    requires semas'.Keys == semas.Keys && semas'[s].waiters == semas[s].waiters
    requires forall x | x in semas && x != s :: semas'[x] == semas[x]
    ensures WaitInv(b, pc', semas')
  {
    forall x, t
      ensures OnList(semas', x, t) <==> IsTesting(pc', t, x) && IsBlocked(b, t)
    {
      assert OnList(semas', x, t) <==> OnList(semas, x, t);
    }
  }

  lemma DownCounts(b: Sched, pc: map<Tid, Pc>, semas: map<Sid, Sema>, s: Sid,
                   pc': map<Tid, Pc>, semas': map<Sid, Sema>, me: Tid, after: Pc)
    requires CountInv(b, pc, semas) && s in semas && me in pc && (IsTesting(pc, me, s) || !pc[me].Testing?)
    requires pc' == pc[me := after] && Ordinary(after) && semas[s].value > 0 && !IsBlocked(b, me)
    requires semas'.Keys == semas.Keys
    requires semas'[s] == semas[s].(value := semas[s].value - 1, downs := semas[s].downs + 1)
    requires forall x | x in semas && x != s :: semas'[x] == semas[x]
    ensures CountInv(b, pc', semas')
  {
    forall x | x in semas
      ensures Counted(semas'[x], |Woken(b, pc', x)|)
    {
      NoLongerWoken(b, pc, me, after, x);
      hide Woken;
      assert Counted(semas[x], |Woken(b, pc, x)|);
    }
  }

  lemma NoLongerWoken(b: Sched, pc: map<Tid, Pc>, me: Tid, after: Pc, x: Sid)
    requires me in pc && !after.Testing?
    ensures var w, w' := Woken(b, pc, x), Woken(b, pc[me := after], x);
      |w'| >= |w| - 1 && (IsTesting(pc, me, x) || w' == w)
  {
    var w, w' := Woken(b, pc, x), Woken(b, pc[me := after], x);
    assert w' == w - {me};
  }

  // ----- The other sections -----------------------------------------------------------------------

  lemma TryDownKeeps(c: Core, s: Sid)
    requires CoreInv(c) && s in c.semas && c.semas[s].value > 0
    ensures CoreInv(TryDown(c, s))
  {
    hide SchedInv, PlaceInv, WaitInv, CountInv;
    CountOf(c, s);
    SemaChanged(c.sched, c.pc, c.semas, s, TryDown(c, s).semas);
  }

  lemma InitKeeps(c: Core, s: Sid, value: nat)
    requires CoreInv(c) && forall t :: !IsTesting(c.pc, t, s)
    ensures CoreInv(Init(c, s, value))
  {
    hide SchedInv, PlaceInv;
    var semas' := Init(c, s, value).semas;
    forall x, t
      ensures OnList(semas', x, t) <==> IsTesting(c.pc, t, x) && IsBlocked(c.sched, t)
    {
      assert OnList(c.semas, x, t) ==> x != s;
    }
  }

  /** A step in code of the thread's own, or in between two sections of this module. */
  lemma SetPcKeeps(c: Core, p: Pc)
    requires CoreInv(c) && Cur(c) in c.pc && Ordinary(c.pc[Cur(c)]) && Ordinary(p)
    ensures CoreInv(SetPc(c, p))
  {
    hide SchedInv;
    CurrentRuns(c);
    MovePlaces(c.sched, c.pc, Cur(c), p);
    hide PlaceInv;
    SetPcWaits(c.sched, c.pc, c.semas, Cur(c), p);
  }

  lemma SetPcWaits(b: Sched, pc: map<Tid, Pc>, semas: map<Sid, Sema>, me: Tid, p: Pc)
    requires WaitInv(b, pc, semas) && CountInv(b, pc, semas) && me in pc && !pc[me].Testing? && !p.Testing?
    ensures WaitInv(b, pc[me := p], semas) && CountInv(b, pc[me := p], semas)
  {
    var pc' := pc[me := p];
    forall x, t
      ensures IsTesting(pc', t, x) == IsTesting(pc, t, x)
    {
    }
    forall x | x in semas
      ensures Woken(b, pc', x) == Woken(b, pc, x)
    {
      NoLongerWoken(b, pc, me, p, x);
    }
  }

  /** Sections after which the same threads as before test semaphores. */
  lemma SwitchKeeps(b: Sched, pc: map<Tid, Pc>, semas: map<Sid, Sema>, b': Sched)
    requires PlaceInv(b, pc) && WaitInv(b, pc, semas) && CountInv(b, pc, semas)
    requires StatusStep(b, b') && b.current in pc && !pc[b.current].Testing?
    requires IsBlocked(b', b.current) ==> b.current == b.idleThread && b.idleKnown
    ensures PlaceInv(b', pc) && WaitInv(b', pc, semas) && CountInv(b', pc, semas)
  {
    hide Distinct;
    hide Counted;
    forall x, t
      ensures OnList(semas, x, t) <==> IsTesting(pc, t, x) && IsBlocked(b', t)
    {
      assert IsTesting(pc, t, x) ==> t != b.idleThread && t != b.current;
    }
    forall x
      ensures Woken(b', pc, x) == Woken(b, pc, x)
    {
      SameWoken(b, pc, b', pc, x, b.current);
    }
    hide Woken;
  }

  lemma YieldCpuKeeps(c: Core)
    requires CoreInv(c) && Cur(c) in c.pc && !c.pc[Cur(c)].Testing?
    ensures CoreInv(YieldCpu(c))
  {
    YieldKeeps(c.sched);
    YieldStatus(c.sched);
    hide SchedInv, PlaceInv, WaitInv, CountInv, Yield;
    SwitchKeeps(c.sched, c.pc, c.semas, Yield(c.sched));
  }

  lemma IdleBlocksKeeps(c: Core)
    requires CoreInv(c) && Cur(c) == c.sched.idleThread && c.sched.idleKnown
    ensures SomeoneToRun(c.sched) && CoreInv(IdleBlocks(c))
  {
    BlockKeeps(c.sched);
    IdleBlockStatus(c.sched);
    assert Cur(c) in c.pc && !c.pc[Cur(c)].Testing?;
    hide SchedInv, PlaceInv, WaitInv, CountInv, Block;
    SwitchKeeps(c.sched, c.pc, c.semas, Block(c.sched));
  }

  lemma IdleBlockStatus(b: Sched)
    requires SchedInv(b) && b.current == b.idleThread && b.idleKnown
    ensures SomeoneToRun(b) && StatusStep(b, Block(b))
  {
    BlockKeeps(b);
    ScheduleStatus(b.(status := b.status[b.current := Blocked]));
  }

  lemma IdleBeginsKeeps(c: Core)
    requires CoreInv(c) && Cur(c) == c.sched.idleThread && !c.sched.idleKnown
    ensures CoreInv(IdleBegins(c))
  {
    BecomeIdleKeeps(c.sched);
    hide SchedInv;
    IdleBeginsPlaces(c.sched, c.pc);
    hide PlaceInv;
    SetPcWaits(c.sched, c.pc, c.semas, Cur(c), IdleLoop);
    SameStatus(c.sched, IdleBegins(c).pc, c.semas, BecomeIdle(c.sched));
  }

  lemma IdleBeginsPlaces(b: Sched, pc: map<Tid, Pc>)
    requires PlaceInv(b, pc) && b.current == b.idleThread && !b.idleKnown
    ensures b.current in pc && !pc[b.current].Testing? && PlaceInv(BecomeIdle(b), pc[b.current := IdleLoop])
  {
    var pc' := pc[b.current := IdleLoop];
    forall t, u
      ensures IsCreating(pc', t, u) == IsCreating(pc, t, u)
    {
    }
  }

  lemma SameStatus(b: Sched, pc: map<Tid, Pc>, semas: map<Sid, Sema>, b': Sched)
    requires WaitInv(b, pc, semas) && CountInv(b, pc, semas) && b'.status == b.status
    ensures WaitInv(b', pc, semas) && CountInv(b', pc, semas)
  {
    assert forall t :: IsBlocked(b', t) == IsBlocked(b, t);
    forall x
      ensures Woken(b', pc, x) == Woken(b, pc, x)
    {
    }
  }

  // ----- Threads come and go ----------------------------------------------------------------------

  lemma CreateThreadKeeps(c: Core, t: Tid)
    requires CoreInv(c) && t !in c.sched.status && Cur(c) in c.pc && c.pc[Cur(c)].Free?
    ensures CoreInv(CreateThread(c, t))
  {
    hide *;
    CoreParts(c);
    CreateKeeps(c.sched, t);
    CreatePlaces(c.sched, c.pc, Cur(c), t);
    CreateTests(c, t);
    CreateIs(c, t);
    ChangedPlaces(c.sched, c.pc, c.semas, Create(c.sched, t), CreateThread(c, t).pc);
    CoreMade(CreateThread(c, t));
  }

  lemma CoreParts(c: Core)
    requires CoreInv(c)
    ensures SchedInv(c.sched) && PlaceInv(c.sched, c.pc) && WaitInv(c.sched, c.pc, c.semas) && CountInv(c.sched, c.pc, c.semas)
    ensures c.pc.Keys == c.sched.status.Keys && Cur(c) == c.sched.current
  {
    hide SchedInv, WaitInv, CountInv;
  }

  lemma CoreMade(c: Core)
    requires SchedInv(c.sched) && PlaceInv(c.sched, c.pc) && WaitInv(c.sched, c.pc, c.semas) && CountInv(c.sched, c.pc, c.semas)
    ensures CoreInv(c)
  {
    hide SchedInv, PlaceInv, WaitInv, CountInv;
  }

  lemma CreateIs(c: Core, t: Tid)
    ensures CreateThread(c, t) == Core(Create(c.sched, t), c.semas, c.pc[t := Born][Cur(c) := Creating(t)])
  {
  }

  lemma CreateTests(c: Core, t: Tid)
    requires t !in c.sched.status && t !in c.pc && Cur(c) in c.pc && c.pc[Cur(c)].Free?
    ensures forall u, x :: IsTesting(CreateThread(c, t).pc, u, x) <==> IsTesting(c.pc, u, x)
    ensures forall u, x :: IsTesting(c.pc, u, x) ==> IsBlocked(Create(c.sched, t), u) == IsBlocked(c.sched, u)
  {
  }

  lemma CreatePlaces(b: Sched, pc: map<Tid, Pc>, me: Tid, t: Tid)
    requires PlaceInv(b, pc) && t !in b.status && me in pc && pc[me].Free? && me == b.current
    ensures PlaceInv(Create(b, t), pc[t := Born][me := Creating(t)])
  {
    var pc' := pc[t := Born][me := Creating(t)];
    forall x, u
      ensures IsCreating(pc', x, u) <==> IsCreating(pc, x, u) || (x == me && u == t)
    {
    }
  }

  /** Threads that test semaphores, before or after, are the same, and blocked or not as before. */
  lemma ChangedPlaces(b: Sched, pc: map<Tid, Pc>, semas: map<Sid, Sema>, b': Sched, pc': map<Tid, Pc>)
    requires WaitInv(b, pc, semas) && CountInv(b, pc, semas)
    requires forall t, x :: IsTesting(pc', t, x) <==> IsTesting(pc, t, x)
    requires forall t, x :: IsTesting(pc, t, x) ==> IsBlocked(b', t) == IsBlocked(b, t)
    ensures WaitInv(b', pc', semas) && CountInv(b', pc', semas)
  {
    hide Distinct;
    hide Counted;
    forall t | t in pc' && pc'[t].Testing?
      ensures pc'[t].s in semas
    {
      assert IsTesting(pc', t, pc'[t].s);
    }
    forall x
      ensures Woken(b', pc', x) == Woken(b, pc, x)
    {
    }
    hide Woken;
    hide IsTesting;
  }

  lemma LaunchThreadKeeps(c: Core)
    requires CoreInv(c) && Cur(c) in c.pc && c.pc[Cur(c)].Creating?
    ensures IsBlocked(c.sched, c.pc[Cur(c)].child)
    ensures CoreInv(LaunchThread(c))
  {
    hide *;
    var me := Cur(c);
    var t := c.pc[me].child;
    CoreParts(c);
    CurrentCreates(c);
    ChildIsBlocked(c.sched, c.pc, me, t);
    CurrentRuns(c);
    NotIdleChild(c.sched, t);
    UnblockKeeps(c.sched, t);
    LaunchPlaces(c.sched, c.pc, me, t);
    LaunchTests(c);
    ChangedPlaces(c.sched, c.pc, c.semas, Unblock(c.sched, t), LaunchThread(c).pc);
    CoreMade(LaunchThread(c));
  }

  lemma CurrentCreates(c: Core)
    requires Cur(c) in c.pc && c.pc[Cur(c)].Creating?
    ensures IsCreating(c.pc, Cur(c), c.pc[Cur(c)].child)
  {
  }

  lemma NotIdleChild(b: Sched, t: Tid)
    requires IsBlocked(b, t) && t != b.idleThread
    ensures t in b.status && b.status[t].Blocked? && !IsIdle(b, t)
  {
  }

  lemma LaunchTests(c: Core)
    requires Cur(c) in c.pc && c.pc[Cur(c)].Creating?
    requires var t := c.pc[Cur(c)].child; IsBlocked(c.sched, t) && t in c.pc && c.pc[t].Born?
    ensures var t := c.pc[Cur(c)].child;
      && LaunchThread(c) == Core(Unblock(c.sched, t), c.semas, c.pc[t := Free][Cur(c) := Free])
      && (forall u, x :: IsTesting(LaunchThread(c).pc, u, x) <==> IsTesting(c.pc, u, x))
      && forall u, x :: IsTesting(c.pc, u, x) ==> IsBlocked(Unblock(c.sched, t), u) == IsBlocked(c.sched, u)
  {
  }

  /** The assertion of thread_unblock holds when thread_create calls it. */
  lemma ChildIsBlocked(b: Sched, pc: map<Tid, Pc>, me: Tid, t: Tid)
    requires PlaceInv(b, pc) && IsCreating(pc, me, t)
    ensures t in pc && pc[t].Born? && IsBlocked(b, t) && t != b.idleThread && t != me
  {
  }

  lemma LaunchPlaces(b: Sched, pc: map<Tid, Pc>, me: Tid, t: Tid)
    requires PlaceInv(b, pc) && IsCreating(pc, me, t) && IsBlocked(b, t) && me != t && !IsBlocked(b, me)
    ensures PlaceInv(Unblock(b, t), pc[t := Free][me := Free])
  {
    var pc' := pc[t := Free][me := Free];
    forall x, u
      ensures IsCreating(pc', x, u) <==> IsCreating(pc, x, u) && x != me && x != t
    {
    }
    assert forall x, u :: IsCreating(pc', x, u) ==> IsCreating(pc, x, u) && u != t;
  }

  lemma ExitThreadKeeps(c: Core)
    requires CoreInv(c) && Cur(c) in c.pc && c.pc[Cur(c)].Free?
    ensures SomeoneToRun(c.sched) && CoreInv(ExitThread(c))
  {
    CurrentRuns(c);
    assert Cur(c) != c.sched.idleThread;
    ExitKeeps(c.sched);
    ExitStatus(c.sched);
    var b', pc' := Exit(c.sched), ExitThread(c).pc;
    hide SchedInv;
    hide Exit;
    ExitPlaces(c.sched, c.pc, b', pc', Cur(c));
    NoneButIdle(c.sched, c.pc);
    hide PlaceInv;
    ChangedPlaces(c.sched, c.pc, c.semas, b', pc');
  }

  /** What thread_exit does to the other threads: idle may start to run. */
  ghost predicate OthersStay(b: Sched, b': Sched, me: Tid) {
    && b'.idleKnown == b.idleKnown && b'.idleThread == b.idleThread
    && (forall t | t != me :: t in b'.status <==> t in b.status)
    && (forall t | t != me && IsBlocked(b', t) :: IsBlocked(b, t))
    && (forall t | t != me && t != b.idleThread && IsBlocked(b, t) :: IsBlocked(b', t))
    && !IsBlocked(b', me) && me != b'.current
    && (forall t | t != me && t in b'.status && b'.status[t].Dying? :: t in b.status && b.status[t].Dying? && t != b'.current)
  }

  lemma ExitStatus(b: Sched)
    requires SchedInv(b) && b.current != b.idleThread
    ensures SomeoneToRun(b) && OthersStay(b, Exit(b), b.current)
  {
    ExitKeeps(b);
    var b1 := b.(status := b.status[b.current := Dying]);
    DyingBetween(b, b1);
    ExitSwitches(b, b1);
    hide *;
    ScheduleStatus(b1);
    ExitOthers(b, b1, Schedule(b1));
  }

  lemma ExitSwitches(b: Sched, b1: Sched)
    requires SomeoneToRun(b) && b1 == b.(status := b.status[b.current := Dying])
    ensures SomeoneToRun(b1) && Exit(b) == Schedule(b1)
  {
    hide Schedule;
  }

  lemma ExitOthers(b: Sched, b1: Sched, c: Sched)
    requires b.current in b.status && b1 == b.(status := b.status[b.current := Dying])
    requires var next := if b1.ready == [] then b1.idleThread else b1.ready[0];
      && c.current == next && c.idleKnown == b1.idleKnown && c.idleThread == b1.idleThread && next != b.current
      && next in c.status && c.status[next].Running?
      && (forall t | t in c.status :: t in b1.status && (t != next ==> c.status[t] == b1.status[t]))
      && (forall t | t in b1.status && t != b1.current :: t in c.status)
      && (b.ready != [] ==> !IsBlocked(b, b.ready[0]))
    ensures OthersStay(b, c, b.current)
  {
  }

  lemma DyingBetween(b: Sched, b1: Sched)
    requires SchedInv(b) && b.current != b.idleThread && b1 == b.(status := b.status[b.current := Dying])
    ensures BetweenThreads(b1) && b.current in b.status && b1.current == b.current
    ensures b.ready != [] ==> !IsBlocked(b, b.ready[0]) && b.ready[0] != b.current
    ensures (if b1.ready == [] then b1.idleThread else b1.ready[0]) != b.current
  {
  }

  lemma ExitPlaces(b: Sched, pc: map<Tid, Pc>, b': Sched, pc': map<Tid, Pc>, me: Tid)
    requires PlaceInv(b, pc) && OthersStay(b, b', me) && me in pc && pc[me].Free? && me != b.idleThread
    requires pc' == if me in b'.status then pc else pc - {me}
    ensures PlaceInv(b', pc')
  {
    forall x, u
      ensures IsCreating(pc', x, u) <==> IsCreating(pc, x, u)
    {
    }
    forall t | IsBlocked(b', t)
      ensures t in pc' && (pc'[t].Testing? || pc'[t].Born? || pc'[t].IdleLoop?)
    {
      assert t != me;
      assert t == b.idleThread || IsBlocked(b, t);
    }
  }

  lemma NoneButIdle(b: Sched, pc: map<Tid, Pc>)
    requires PlaceInv(b, pc)
    ensures forall t, x :: IsTesting(pc, t, x) ==> t != b.idleThread
  {
  }

  // ----- What the invariants say ------------------------------------------------------------------

  /** The member elem of a thread links it into one list at most: the ready list or one wait list. */
  lemma OneListOnly(c: Core, t: Tid)
    requires CoreInv(c)
    ensures t in c.sched.ready ==> forall s :: !OnList(c.semas, s, t)
    ensures forall s, s' :: OnList(c.semas, s, t) && OnList(c.semas, s', t) ==> s == s'
  {
  }

  /** A unit of the value that threads wait for has a woken thread that will test it. */
  lemma NoWakeUpLost(c: Core, s: Sid)
    requires CoreInv(c) && s in c.semas && c.semas[s].value > 0 && c.semas[s].waiters != []
    ensures exists t :: t in Woken(c.sched, c.pc, s)
  {
    CountOf(c, s);
    var w := Woken(c.sched, c.pc, s);
    assert |w| > 0;
    var t :| t in w;
  }
}
