/** The ready list and a wait list as the linked lists that they are. A thread has one list element for
    both, so an operation on one list could tear the other apart: that it does not is what the invariant
    of the semaphores is for. */
module ThreadLists {
  import opened Scheduler
  import opened Semaphores
  import opened KernelRuns
  import opened RunTheorems
  import ListLinks
  import opened KernelList

  type Elem = ListLinks.Elem

  /** The list holds the elements of these threads. */
  ghost predicate Holds(list: List, elem: map<Tid, Elem>, q: seq<Tid>)
    reads list
  {
    |list.elems| == |q| && forall i | 0 <= i < |q| :: q[i] in elem && list.elems[i] == elem[q[i]]
  }

  /** Each of these threads has an element of its own, and the lists have sentinels of their own. */
  ghost predicate Embedded(elem: map<Tid, Elem>, threads: set<Tid>, waiters: List, ready: List) {
    && threads <= elem.Keys
    && (forall t, u | t in threads && u in threads :: elem[t] == elem[u] ==> t == u)
    && (forall t | t in threads :: elem[t] !in {waiters.head, waiters.tail, ready.head, ready.tail})
    && {waiters.head, waiters.tail} !! {ready.head, ready.tail}
  }

  ghost predicate InLists(c: Core, s: Sid, elem: map<Tid, Elem>, waiters: List, ready: List)
    reads waiters, waiters.Nodes(), ready, ready.Nodes()
  {
    && s in c.semas && Embedded(elem, c.sched.status.Keys, waiters, ready)
    && waiters.Valid() && Holds(waiters, elem, c.semas[s].waiters)
    && ready.Valid() && Holds(ready, elem, c.sched.ready)
  }

  /** Threads that wait or are ready, and the running one, are in the table. */
  lemma InTable(c: Core, s: Sid)
    requires CoreInv(c) && s in c.semas
    ensures forall t | t in c.semas[s].waiters || t in c.sched.ready || t == Cur(c) :: t in c.sched.status
  {
    forall t | t in c.semas[s].waiters
      ensures t in c.sched.status
    {
      WaiterIsBlocked(c, s, t);
    }
  }

  /** Since no thread is on both lists, they have no element in common. */
  lemma NodesApart(c: Core, s: Sid, elem: map<Tid, Elem>, waiters: List, ready: List)
    requires CoreInv(c) && InLists(c, s, elem, waiters, ready)
    ensures waiters.Nodes() !! ready.Nodes()
  {
    InTable(c, s);
    NeverBoth(c, s);
    hide CoreInv;
    waiters.AllIs();
    ready.AllIs();
    ElementsApart(elem, c.sched.status.Keys, waiters, ready, c.semas[s].waiters, c.sched.ready);
  }

  lemma NeverBoth(c: Core, s: Sid)
    requires CoreInv(c) && s in c.semas
    ensures forall t | t in c.semas[s].waiters :: t !in c.sched.ready
  {
    hide CoreInv;
    forall t | t in c.semas[s].waiters
      ensures t !in c.sched.ready
    {
      OneListOnly(c, t);
      assert OnList(c.semas, s, t);
    }
  }

  lemma ElementsApart(elem: map<Tid, Elem>, threads: set<Tid>, waiters: List, ready: List, p: seq<Tid>, q: seq<Tid>)
    requires Embedded(elem, threads, waiters, ready) && Holds(waiters, elem, p) && Holds(ready, elem, q)
    requires forall t | t in p :: t in threads && t !in q
    requires forall t | t in q :: t in threads
    ensures SetOf([waiters.head] + waiters.elems + [waiters.tail]) !! SetOf([ready.head] + ready.elems + [ready.tail])
  {
    forall i, j | 0 <= i < |p| && 0 <= j < |q|
      ensures waiters.elems[i] != ready.elems[j]
    {
      assert p[i] in p && q[j] in q;
    }
    forall i | 0 <= i < |p|
      ensures waiters.elems[i] !in {ready.head, ready.tail}
    {
      assert p[i] in p;
    }
    forall j | 0 <= j < |q|
      ensures ready.elems[j] !in {waiters.head, waiters.tail}
    {
      assert q[j] in q;
    }
  }

  lemma Parts(c: Core, s: Sid, elem: map<Tid, Elem>, waiters: List, ready: List)
    requires InLists(c, s, elem, waiters, ready)
    ensures s in c.semas && Embedded(elem, c.sched.status.Keys, waiters, ready) && waiters != ready
    ensures waiters.Valid() && Holds(waiters, elem, c.semas[s].waiters)
    ensures ready.Valid() && Holds(ready, elem, c.sched.ready)
    ensures c.semas[s].waiters != [] ==> waiters.elems != []
    ensures c.sched.ready != [] ==> ready.elems != []
    ensures forall t | t in c.sched.status && t in elem && elem[t] !in waiters.elems :: elem[t] !in waiters.Nodes()
    ensures forall t | t in c.sched.status && t in elem && elem[t] !in ready.elems :: elem[t] !in ready.Nodes()
  {
    waiters.AllIs();
    ready.AllIs();
  }

  lemma FromParts(c: Core, s: Sid, elem: map<Tid, Elem>, waiters: List, ready: List)
    requires s in c.semas && Embedded(elem, c.sched.status.Keys, waiters, ready)
    requires waiters.Valid() && Holds(waiters, elem, c.semas[s].waiters)
    requires ready.Valid() && Holds(ready, elem, c.sched.ready)
    ensures InLists(c, s, elem, waiters, ready)
  {
  }

  /** The front of a list, and the list without it. */
  lemma Front(list: List, elem: map<Tid, Elem>, q: seq<Tid>)
    requires Holds(list, elem, q) && q != []
    ensures list.elems != [] && q[0] in elem && list.elems[0] == elem[q[0]] && list.elems[0] in list.Nodes()
  {
    list.AllIs();
    assert list.All()[1] == list.elems[0];
  }

  /** What is left when the first element has been taken off: it is not a node of the list any more. */
  lemma FrontGone(list: List, was: seq<Elem>, nodes: set<Elem>, elem: map<Tid, Elem>, q: seq<Tid>)
    requires was != [] && list.elems == was[1..] && nodes == SetOf([list.head] + was + [list.tail])
    requires ListLinks.Distinct([list.head] + was + [list.tail])
    requires |was| == |q| && forall i | 0 <= i < |q| :: q[i] in elem && was[i] == elem[q[i]]
    ensures was[0] !in list.Nodes() && list.Nodes() <= nodes && Holds(list, elem, q[1..])
  {
    var all := [list.head] + was + [list.tail];
    list.AllIs();
    assert all[1] == was[0];
    forall e | e in list.Nodes()
      ensures e != was[0] && e in all
    {
      var i :| 0 <= i < |list.All()| && list.All()[i] == e;
      assert e == if i == 0 then all[0] else all[i + 1];
    }
  }

  lemma DistinctNodes(list: List)
    requires list.Valid()
    ensures ListLinks.Distinct([list.head] + list.elems + [list.tail])
    ensures list.Nodes() == SetOf([list.head] + list.elems + [list.tail])
  {
    list.AllIs();
  }

  lemma NodesOf(list: List) returns (n: set<Elem>)
    ensures n == list.Nodes()
  {
    n := list.Nodes();
  }

  lemma HoldsIs(list: List, elem: map<Tid, Elem>, q: seq<Tid>)
    requires Holds(list, elem, q)
    ensures |list.elems| == |q| && forall i | 0 <= i < |q| :: q[i] in elem && list.elems[i] == elem[q[i]]
  {
  }

  lemma HoldsMore(list: List, was: seq<Elem>, elem: map<Tid, Elem>, q: seq<Tid>, t: Tid)
    requires |was| == |q| && forall i | 0 <= i < |q| :: q[i] in elem && was[i] == elem[q[i]]
    requires t in elem && list.elems == was + [elem[t]]
    ensures Holds(list, elem, q + [t])
  {
  }

  lemma UpLists(c: Core, s: Sid)
    requires s in c.semas && c.semas[s].waiters != [] && IsBlocked(c.sched, c.semas[s].waiters[0])
    ensures s in Up(c, s).semas && Up(c, s).semas[s].waiters == c.semas[s].waiters[1..]
    ensures Up(c, s).sched.ready == c.sched.ready + [c.semas[s].waiters[0]]
    ensures Up(c, s).sched.status.Keys == c.sched.status.Keys
  {
  }

  /** sema_up when threads wait: the first waiter's element moves from the wait list to the end of the
      ready list. */
  method WakeFirst(ghost c: Core, ghost s: Sid, ghost elem: map<Tid, Elem>, waiters: List, ready: List)
    requires CoreInv(c) && InLists(c, s, elem, waiters, ready) && c.semas[s].waiters != []
    modifies waiters`elems, waiters.Nodes(), ready`elems, ready.Nodes()
    ensures s in c.semas && IsBlocked(c.sched, c.semas[s].waiters[0]) && InLists(Up(c, s), s, elem, waiters, ready)
  {
    hide *;
    Parts(c, s, elem, waiters, ready);
    NodesApart(c, s, elem, waiters, ready);
    UpEnabled(c, s);
    UpLists(c, s);
    DistinctNodes(waiters);
    Front(waiters, elem, c.semas[s].waiters);
    HoldsIs(waiters, elem, c.semas[s].waiters);
    HoldsIs(ready, elem, c.sched.ready);
    ghost var was, others := waiters.elems, ready.elems;
    ghost var nodes := NodesOf(waiters);
    ghost var apart := NodesOf(ready);
    var front := waiters.PopFront();
    FrontGone(waiters, was, nodes, elem, c.semas[s].waiters);
    ghost var rest := NodesOf(waiters);
    ready.PushBack(front);
    HoldsMore(ready, others, elem, c.sched.ready, c.semas[s].waiters[0]);
    FromParts(Up(c, s), s, elem, waiters, ready);
  }

  lemma TestLists(c: Core, s: Sid, why: Why, after: Pc)
    requires CoreInv(c) && MayTest(c, s) && c.semas[s].value == 0
    ensures SomeoneToRun(c.sched) && s in Test(c, s, why, after).semas
    ensures Test(c, s, why, after).semas[s].waiters == c.semas[s].waiters + [Cur(c)]
    ensures Test(c, s, why, after).sched.ready == if c.sched.ready == [] then [] else c.sched.ready[1..]
    ensures Cur(c) !in c.semas[s].waiters && Cur(c) !in c.sched.ready
    ensures Test(c, s, why, after).sched.status.Keys == c.sched.status.Keys
  {
    BlockKeeps(c.sched);
    assert OnList(c.semas, s, Cur(c)) ==> IsBlocked(c.sched, Cur(c));
  }

  /** The running thread's element is on neither list. */
  lemma MineIsFree(c: Core, s: Sid, elem: map<Tid, Elem>, waiters: List, ready: List)
    requires CoreInv(c) && InLists(c, s, elem, waiters, ready)
    requires Cur(c) !in c.semas[s].waiters && Cur(c) !in c.sched.ready
    ensures Cur(c) in elem && elem[Cur(c)] !in waiters.Nodes() && elem[Cur(c)] !in ready.Nodes()
  {
    InTable(c, s);
    hide CoreInv;
    waiters.AllIs();
    ready.AllIs();
    ElementNotIn(elem, c.sched.status.Keys, waiters, c.semas[s].waiters, Cur(c));
    ElementNotIn(elem, c.sched.status.Keys, ready, c.sched.ready, Cur(c));
  }

  lemma ElementNotIn(elem: map<Tid, Elem>, threads: set<Tid>, list: List, q: seq<Tid>, t: Tid)
    requires threads <= elem.Keys && t in threads && t !in q && forall u | u in q :: u in threads
    requires forall u | u in threads && elem[u] == elem[t] :: u == t
    requires elem[t] != list.head && elem[t] != list.tail && Holds(list, elem, q)
    ensures elem[t] !in SetOf([list.head] + list.elems + [list.tail])
  {
    forall i | 0 <= i < |q|
      ensures list.elems[i] != elem[t]
    {
      assert q[i] in q;
    }
  }

  /** sema_down when the value is 0: the running thread's element goes to the end of the wait list, and the
      first of the ready list, if any, is taken off it. */
  method WaitAndSwitch(ghost c: Core, ghost s: Sid, ghost why: Why, ghost after: Pc, ghost elem: map<Tid, Elem>, mine: Elem,
                       waiters: List, ready: List)
    requires CoreInv(c) && MayTest(c, s) && InLists(c, s, elem, waiters, ready)
    requires c.semas[s].value == 0 && Cur(c) in elem && mine == elem[Cur(c)]
    modifies waiters`elems, mine, waiters.Nodes(), ready`elems, ready.Nodes()
    ensures s in c.semas && SomeoneToRun(c.sched) && InLists(Test(c, s, why, after), s, elem, waiters, ready)
    ensures waiters.Nodes() == old(waiters.Nodes()) + {mine} && ready.Nodes() <= old(ready.Nodes())
  {
    hide *;
    Parts(c, s, elem, waiters, ready);
    NodesApart(c, s, elem, waiters, ready);
    TestLists(c, s, why, after);
    MineIsFree(c, s, elem, waiters, ready);
    HoldsIs(waiters, elem, c.semas[s].waiters);
    HoldsIs(ready, elem, c.sched.ready);
    DistinctNodes(ready);
    ghost var was, others := waiters.elems, ready.elems;
    ghost var nodes := NodesOf(ready);
    ghost var apart := NodesOf(waiters);
    DistinctNodes(waiters);
    waiters.PushBack(mine);
    HoldsMore(waiters, was, elem, c.semas[s].waiters, Cur(c));
    NodesOneMore(waiters, was, mine);
    var empty := ready.Begin() == ready.tail;
    ready.ElementAt(0);
    BeginIsTail(ready);
    if !empty {
      ghost var more := NodesOf(waiters);
      var front := ready.PopFront();
      FrontGone(ready, others, nodes, elem, c.sched.ready);
    } else {
      HoldsNothing(ready, elem);
    }
    FromParts(Test(c, s, why, after), s, elem, waiters, ready);
  }

  lemma HoldsNothing(list: List, elem: map<Tid, Elem>)
    requires list.elems == []
    ensures Holds(list, elem, [])
  {
  }

  lemma BeginIsTail(list: List)
    requires list.Valid()
    ensures list.Begin() == list.tail <==> list.elems == []
  {
    list.ElementAt(0);
    DistinctNodes(list);
    var all := [list.head] + list.elems + [list.tail];
    assert list.elems != [] ==> all[1] == list.elems[0] && all[|list.elems| + 1] == list.tail;
  }

  lemma NodesOneMore(list: List, was: seq<Elem>, e: Elem)
    requires list.elems == was + [e]
    ensures list.Nodes() == SetOf([list.head] + was + [list.tail]) + {e}
  {
    list.AllIs();
    assert forall x :: x in [list.head] + (was + [e]) + [list.tail] <==> x in [list.head] + was + [list.tail] || x == e;
  }

  /** Were the element on a list already, linking it into another one would tear the first apart. */
  lemma SharedElementTears(m: map<Elem, ListLinks.Links>, s: seq<Elem>, i: nat, before: Elem, after: Elem)
    requires ListLinks.Chain(m, s) && 0 < i < |s| && before in m && after in m
    requires before !in s && after !in s
    ensures s[i] in m && !ListLinks.Chain(ListLinks.Linked(m, before, s[i], s[i], after), s)
  {
    var m' := ListLinks.Linked(m, before, s[i], s[i], after);
    assert m'[s[i]].prev == before;
    assert before != s[i - 1];
  }

  /** The kernel as it boots, with one semaphore of value 0. */
  function OneSema(): Core {
    Init(Boot().core, Plain(0), 0)
  }

  function OneWaits(): Core {
    OneSemaInv();
    Test(OneSema(), Plain(0), ForCaller, Free)
  }

  lemma OneSemaInv()
    ensures CoreInv(OneSema()) && MayTest(OneSema(), Plain(0)) && SomeoneToRun(OneSema().sched)
    ensures var c := OneSema();
      && Plain(0) in c.semas && c.semas[Plain(0)].value == 0 && c.semas[Plain(0)].waiters == []
      && c.sched.ready == [IDLE] && Cur(c) == INITIAL && c.sched.status.Keys == {INITIAL, IDLE}
  {
    hide SystemInv, CoreInv;
    BootInv();
    StepKeeps(Boot(), InitSema(0, 0));
    Basics(Do(Boot(), InitSema(0, 0)));
    assert Do(Boot(), InitSema(0, 0)).core == OneSema();
  }

  lemma OneWaitsInv()
    ensures MayTest(OneSema(), Plain(0)) && SomeoneToRun(OneSema().sched)
    ensures OneWaits() == Test(OneSema(), Plain(0), ForCaller, Free)
    ensures var c := OneWaits();
      && CoreInv(c) && Plain(0) in c.semas && c.semas[Plain(0)].waiters == [INITIAL] && c.sched.ready == []
  {
    hide CoreInv;
    OneSemaInv();
    TestKeeps(OneSema(), Plain(0), ForCaller, Free);
    TestLists(OneSema(), Plain(0), ForCaller, Free);
  }

  /** The initial thread waits for the semaphore while the idle thread runs, and is woken: the lists are
      made, and both operations are applied to them one after the other. */
  method WaitAndWake() returns (ghost elem: map<Tid, Elem>, waiters: List, ready: List)
    ensures Plain(0) in OneWaits().semas && IsBlocked(OneWaits().sched, INITIAL)
    ensures InLists(Up(OneWaits(), Plain(0)), Plain(0), elem, waiters, ready)
    ensures waiters.elems == [] && INITIAL in elem && ready.elems == [elem[INITIAL]]
  {
    hide *;
    var mine := new ListLinks.Elem();
    elem, waiters, ready := SetUp(mine);
    OneSemaInv();
    OneWaitsInv();
    WaitAndSwitch(OneSema(), Plain(0), ForCaller, Free, elem, mine, waiters, ready);
    WakeFirst(OneWaits(), Plain(0), elem, waiters, ready);
    UpLists(OneWaits(), Plain(0));
    Parts(Up(OneWaits(), Plain(0)), Plain(0), elem, waiters, ready);
    HoldsIs(waiters, elem, []);
    HoldsIs(ready, elem, [INITIAL]);
  }

  /** The lists of OneSema: the idle thread is ready, and nobody waits. */
  method SetUp(mine: Elem) returns (ghost elem: map<Tid, Elem>, waiters: List, ready: List)
    ensures InLists(OneSema(), Plain(0), elem, waiters, ready)
    ensures INITIAL in elem && elem[INITIAL] == mine
    ensures fresh(waiters) && fresh(ready) && fresh(waiters.Nodes()) && fresh(ready.Nodes())
  {
    hide *;
    var idle := new ListLinks.Elem();
    waiters := new List();
    Sentinels(waiters);
    ghost var wn := NodesOf(waiters);
    ready := new List();
    Sentinels(ready);
    ghost var rn := NodesOf(ready);
    assert idle !in rn;
    ready.PushBack(idle);
    NodesOneMore(ready, [], idle);
    elem := map[INITIAL := mine, IDLE := idle];
    OneSemaInv();
    Two(elem, mine, idle, waiters, ready);
    FromParts(OneSema(), Plain(0), elem, waiters, ready);
  }

  lemma Sentinels(list: List)
    ensures list.head in list.Nodes() && list.tail in list.Nodes()
    ensures list.elems == [] ==> list.Nodes() == SetOf([list.head] + [] + [list.tail])
  {
    list.AllIs();
    assert list.All()[0] == list.head && list.All()[|list.elems| + 1] == list.tail;
  }

  lemma Two(elem: map<Tid, Elem>, mine: Elem, idle: Elem, waiters: List, ready: List)
    requires elem == map[INITIAL := mine, IDLE := idle] && mine != idle
    requires {mine, idle} !! {waiters.head, waiters.tail, ready.head, ready.tail}
    requires {waiters.head, waiters.tail} !! {ready.head, ready.tail}
    requires waiters.elems == [] && ready.elems == [idle]
    ensures Embedded(elem, {INITIAL, IDLE}, waiters, ready) && INITIAL in elem && elem[INITIAL] == mine
    ensures Holds(waiters, elem, []) && Holds(ready, elem, [IDLE])
  {
  }
}
