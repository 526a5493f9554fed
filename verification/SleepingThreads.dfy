/** The list of sleeping threads of devices/timer.c as the linked list that it is: the timer
    interrupt removes elements while it walks, and goes on from an element that it just removed. */
module SleepingThreads {
  import opened ListSort
  import opened ListLinks
  import opened KernelList

  /** How many elements at the front have reached their deadline. */
  function Expired(deadline: Elem -> int, s: seq<Elem>, ticks: int): (k: nat)
    ensures k <= |s| && (forall i :: 0 <= i < k ==> deadline(s[i]) <= ticks)
    ensures k < |s| ==> deadline(s[k]) > ticks
  {
    if s == [] || deadline(s[0]) > ticks then 0 else 1 + Expired(deadline, s[1..], ticks)
  }

  /** On a list that is sorted by deadline the walk may stop there: nobody behind is late. */
  lemma NobodyLateRemains(deadline: Elem -> int, s: seq<Elem>, ticks: int)
    requires Sorted((a, b) => deadline(a) < deadline(b), s)
    ensures forall e | e in s[Expired(deadline, s, ticks)..] :: deadline(e) > ticks
  {
    var k := Expired(deadline, s, ticks);
    forall i | k <= i < |s|
      ensures deadline(s[i]) > ticks
    {
    }
  }

  /** has_less_sleep_time is an order that list_insert_ordered can use: the list stays sorted, and a
      new sleeper goes behind those with the same deadline. */
  lemma InsertedInOrder(deadline: Elem -> int, dom: set<Elem>, s: seq<Elem>, e: Elem)
    requires Within(s, dom) && e in dom && Sorted((a, b) => deadline(a) < deadline(b), s)
    ensures var less := (a, b) => deadline(a) < deadline(b);
      && Sorted(less, Merge(less, s, [e]))
      && Class(less, Merge(less, s, [e]), e) == Class(less, s, e) + [e]
  {
    var less := (a: Elem, b: Elem) => deadline(a) < deadline(b);
    MergeSorts(less, dom, s, [e]);
    MergeIsStable(less, dom, s, [e], e);
    assert Class(less, [e], e) == [e];
  }

  /** The loop of try_to_wake_up_threads; woken are the threads whose semaphores it ups, in order. */
  method WakeExpired(list: List, deadline: Elem -> int, ticks: int) returns (woken: seq<Elem>)
    requires list.Valid()
    modifies list`elems, list.Nodes()
    ensures list.Valid()
    ensures var k := Expired(deadline, old(list.elems), ticks);
      woken == old(list.elems)[..k] && list.elems == old(list.elems)[k..]
  {
    hide *;
    woken := [];
    list.AllIs();
    var e := list.Begin();
    ghost var was, nodes := list.elems, list.Nodes();
    EndOfAll(list);
    assert [] + list.elems == was;
    while e != list.tail
      invariant list.Valid() && list.Nodes() <= nodes && |list.All()| == |list.elems| + 2
      invariant woken + list.elems == was
      invariant e == list.All()[1] && list.tail == list.All()[|list.elems| + 1]
      invariant Expired(deadline, was, ticks) == |woken| + Expired(deadline, list.elems, ticks)
      decreases |list.elems|
    {
      list.SamePosition(1, |list.elems| + 1);
      list.ElementAt(0);
      ExpiredUnfolds(deadline, list.elems, ticks);
      if deadline(e) <= ticks {
        FrontMoves(woken, list.elems);
        woken := woken + [e];
        e := RemoveAndGoOn(list, e);
      } else {
        break;
      }
    }
    list.SamePosition(1, |list.elems| + 1);
    ExpiredUnfolds(deadline, list.elems, ticks);
    SplitsAt(was, woken, list.elems);
  }

  lemma EndOfAll(list: List)
    requires list.Valid()
    ensures |list.All()| == |list.elems| + 2 && list.tail == list.All()[|list.elems| + 1]
  {
  }

  lemma ExpiredUnfolds(deadline: Elem -> int, s: seq<Elem>, ticks: int)
    ensures Expired(deadline, s, ticks)
         == if s == [] || deadline(s[0]) > ticks then 0 else 1 + Expired(deadline, s[1..], ticks)
  {
  }

  lemma FrontMoves(a: seq<Elem>, b: seq<Elem>)
    requires b != []
    ensures (a + [b[0]]) + b[1..] == a + b
  {
  }

  lemma SplitsAt(s: seq<Elem>, a: seq<Elem>, b: seq<Elem>)
    requires a + b == s
    ensures s[..|a|] == a && s[|a|..] == b
  {
  }

  /** list_remove of the first element, and then list_next of the element that is not in the list any
      more: its link still leads on to the rest. */
  method RemoveAndGoOn(list: List, e: Elem) returns (next: Elem)
    requires list.Valid() && list.elems != [] && |list.All()| > 1 && e == list.All()[1]
    modifies list`elems, list.Nodes()
    ensures list.Valid() && list.Nodes() <= old(list.Nodes()) && list.elems == old(list.elems)[1..]
    ensures |list.All()| == |list.elems| + 2 && list.tail == list.All()[|list.elems| + 1]
    ensures next == list.All()[1]
  {
    hide *;
    ghost var nodes, was := list.Nodes(), list.elems;
    list.ElementAt(0);
    list.NeighboursIn(0);
    list.AllIs();
    assert was[..0] + was[1..] == was[1..];
    var removed := list.Remove(e, 0);
    Shorter(list, was, nodes);
    next := e.next;
  }

  /** The list without its first element has no nodes that it did not have. */
  lemma Shorter(list: List, was: seq<Elem>, nodes: set<Elem>)
    requires was != [] && list.elems == was[1..] && nodes == SetOf([list.head] + was + [list.tail])
    ensures list.Nodes() <= nodes && |list.All()| == |list.elems| + 2 && list.tail == list.All()[|list.elems| + 1]
    ensures list.All()[1] == ([list.head] + was + [list.tail])[2]
  {
    list.AllIs();
    assert forall e | e in was[1..] :: e in was;
    assert forall e :: e in [list.head] + was + [list.tail] <==> e == list.head || e in was || e == list.tail;
  }
}
