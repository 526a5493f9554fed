/** The intrusive doubly linked list of lib/kernel/list.c: two sentinels, elements that carry their
    own links, and a natural merge sort in place. */
module KernelList {
  import opened ListSort
  import opened ListLinks

  lemma CutAt(s: seq<Elem>, i: nat)
    requires 0 < i < |s|
    ensures s[..i] + s[i..] == s && s[..i] != [] && s[i..] != []
    ensures Last(s[..i]) == s[i - 1] && s[i..][0] == s[i]
  {
  }

  lemma NotInPart(s: seq<Elem>, a: seq<Elem>, b: seq<Elem>, e: Elem)
    requires s == a + b && e !in s
    ensures e !in a && e !in b
    ensures Apart(a, [e]) && Apart([e], b)
  {
  }

  lemma Alone(m: map<Elem, Links>, e: Elem)
    requires e in m
    ensures Chain(m, [e])
  {
  }

  lemma InsertInMiddle(head: Elem, was: seq<Elem>, tail: Elem, k: nat, elem: Elem)
    requires k <= |was|
    ensures ([head] + was + [tail])[..k + 1] + [elem] + ([head] + was + [tail])[k + 1..]
         == [head] + (was[..k] + [elem] + was[k..]) + [tail]
  {
    assert ([head] + was + [tail])[..k + 1] == [head] + was[..k];
    assert ([head] + was + [tail])[k + 1..] == was[k..] + [tail];
  }

  lemma PartsOfList(s: set<Elem>, p: seq<Elem>, y: seq<Elem>, z: seq<Elem>)
    requires p != [] && y != [] && z != [] && ListChain(LinksOf(s), p + y + z)
    ensures Last(p) !in y && z[0] !in y
  {
    hide Chain;
    Parts(LinksOf(s), p, y, z);
  }

  ghost function SetOf(s: seq<Elem>): set<Elem> {
    set e | e in s
  }

  lemma CutOut(h: Elem, es: seq<Elem>, t: Elem, i: nat, j: nat)
    requires i < j <= |es|
    ensures var all := [h] + es + [t]; var p, y, z := all[..i + 1], all[i + 1..j + 1], all[j + 1..];
      && p + y + z == all && p + z == [h] + (es[..i] + es[j..]) + [t]
      && p != [] && y != [] && z != []
      && y == es[i..j] && y[0] == all[i + 1] && Last(y) == all[j] && Last(p) == all[i] && z[0] == all[j + 1]
  {
    var all := [h] + es + [t];
    assert all[..i + 1] == [h] + es[..i];
    assert all[i + 1..j + 1] == es[i..j];
    assert all[j + 1..] == es[j..] + [t];
    assert all == all[..i + 1] + all[i + 1..j + 1] + all[j + 1..];
  }

  /** Where the segment goes when it stays in its list. */
  lemma MovedIs(h: Elem, es: seq<Elem>, t: Elem, i: nat, j: nat, b: nat) returns (q: seq<Elem>, r: seq<Elem>)
    requires i < j <= |es| && b <= |es| && (b < i || j <= b)
    ensures q != [] && r != []
    ensures q + r == [h] + (es[..i] + es[j..]) + [t]
    ensures q + es[i..j] + r == [h] + Moved(es, i, j, b) + [t]
    ensures r[0] == ([h] + es + [t])[b + 1]
  {
    if b < i {
      q, r := [h] + es[..b], es[b..i] + es[j..] + [t];
      assert es[..i] == es[..b] + es[b..i];
      Regroup(h, es[..b], es[b..i], es[i..j], es[j..], t);
      assert r[0] == es[b];
    } else {
      q, r := [h] + es[..i] + es[j..b], es[b..] + [t];
      assert es[j..] == es[j..b] + es[b..];
      Regroup'(h, es[..i], es[j..b], es[i..j], es[b..], t);
      assert r[0] == if b < |es| then es[b] else t;
    }
  }

  lemma Regroup<E>(h: E, a: seq<E>, x: seq<E>, y: seq<E>, d: seq<E>, t: E)
    ensures ([h] + a) + (x + d + [t]) == [h] + ((a + x) + d) + [t]
    ensures ([h] + a) + y + (x + d + [t]) == [h] + (a + y + x + d) + [t]
  {
  }

  lemma Regroup'<E>(h: E, a: seq<E>, x: seq<E>, y: seq<E>, d: seq<E>, t: E)
    ensures ([h] + a + x) + (d + [t]) == [h] + (a + (x + d)) + [t]
    ensures ([h] + a + x) + y + (d + [t]) == [h] + (a + x + y + d) + [t]
  {
  }

  /** struct list. The sequence elems is what the links spell out between the two sentinels. */
  class List {
    const head: Elem
    const tail: Elem
    ghost var elems: seq<Elem>

    ghost function All(): seq<Elem>
      reads this
    {
      [head] + elems + [tail]
    }

    ghost function Nodes(): set<Elem>
      reads this
    {
      set e | e in All()
    }

    ghost predicate Valid()
      reads this, Nodes()
    {
      ListChain(LinksOf(Nodes()), All())
    }

    /** list_init. */
    constructor ()
      ensures Valid() && fresh(Nodes()) && elems == []
    {
      var h := new Elem();
      var t := new Elem();
      head, tail, elems := h, t, [];
      new;
      h.next := t;
      t.prev := h;
      assert All() == [h, t];
    }

    /** In a valid list neighbours point at each other, and only the sentinels have a null link. */
    lemma Neighbours(i: nat)
      requires Valid() && i < |All()|
      ensures All()[i] in Nodes()
      ensures All()[i].prev == if i == 0 then null else All()[i - 1]
      ensures All()[i].next == if i == |All()| - 1 then null else All()[i + 1]
    {
      var m, s := LinksOf(Nodes()), All();
      assert s[i] in m;
      assert m[s[i]] == Links(s[i].prev, s[i].next);
    }

    /** list_begin. */
    function Begin(): (e: Elem)
      requires Valid()
      reads this, Nodes()
      ensures |All()| > 1 && e == All()[1]
    {
      ElementAt(0);
      hide *;
      Neighbours(0);
      head.next
    }

    /** Validity can be read off any set of elements that includes those of the list. */
    lemma ValidWithin(nodes: set<Elem>)
      requires Nodes() <= nodes
      ensures Valid() <==> ListChain(LinksOf(nodes), All())
    {
      hide ListChain;
      hide All;
      ListChainSame(LinksOf(Nodes()), LinksOf(nodes), All());
    }

    /** list_insert, where before is at position k of the elements, or the tail. */
    method Insert(before: Elem, elem: Elem, ghost k: nat)
      requires Valid() && k <= |elems| && before == All()[k + 1] && elem !in Nodes()
      modifies this`elems, elem, before, before.prev
      ensures Valid()
      ensures elems == old(elems)[..k] + [elem] + old(elems)[k..]
      ensures elem.prev == old(All()[k]) && elem.next == before
    {
      hide *;
      ghost var was := elems;
      ghost var s, q, r := BeforeInsert(elem, k);
      ghost var m := LinksOf(s);
      LinkIn(before, elem, elem, s);
      LinkedIsList(m, q, [elem], r);
      elems := elems[..k] + [elem] + elems[k..];
      AfterInsert(s, was, k, q, elem, r);
    }

    lemma BeforeInsert(elem: Elem, k: nat) returns (s: set<Elem>, q: seq<Elem>, r: seq<Elem>)
      requires Valid() && k <= |elems| && elem !in Nodes()
      ensures q == All()[..k + 1] && r == All()[k + 1..]
      ensures q != [] && r != [] && {elem, r[0], Last(q)} <= s && r[0].prev == Last(q)
      ensures r[0] == All()[k + 1] && Last(q) == All()[k]
      ensures elem != r[0] && elem != Last(q)
      ensures All() == [head] + elems + [tail]
      ensures ListChain(LinksOf(s), q + r) && Chain(LinksOf(s), [elem])
      ensures Apart(q, [elem]) && Apart([elem], r)
    {
      AllIs();
      s, q, r := Nodes() + {elem}, All()[..k + 1], All()[k + 1..];
      assert elem !in All();
      hide *;
      ValidWithin(s);
      CutAt(All(), k + 1);
      Neighbours(k + 1);
      Neighbours(k);
      NotInPart(All(), q, r, elem);
      assert Chain(LinksOf(s), [elem]) by {
        Alone(LinksOf(s), elem);
      }
    }

    lemma AfterInsert(s: set<Elem>, was: seq<Elem>, k: nat, q: seq<Elem>, elem: Elem, r: seq<Elem>)
      requires k <= |was| && elems == was[..k] + [elem] + was[k..]
      requires q == ([head] + was + [tail])[..k + 1] && r == ([head] + was + [tail])[k + 1..]
      requires ListChain(LinksOf(s), q + [elem] + r)
      ensures Valid()
      ensures elem.prev == ([head] + was + [tail])[k] && elem.next == ([head] + was + [tail])[k + 1]
    {
      InsertInMiddle(head, was, tail, k, elem);
      AllIs();
      var all := q + [elem] + r;
      assert |q| == k + 1 && all[k + 1] == elem && all[k] == q[k] && all[k + 2] == r[0];
      hide Valid;
      hide ListChain;
      hide All;
      SpelledOut(s, all);
      Neighbours(k + 1);
    }

    lemma AllIs()
      ensures All() == [head] + elems + [tail] && |All()| == |elems| + 2
      ensures Nodes() == SetOf(All())
    {
    }

    /** What a method that takes elements i to j out of the list knows at the start. */
    lemma BeforeCut(i: nat, j: nat) returns (s: set<Elem>, p: seq<Elem>, y: seq<Elem>, z: seq<Elem>)
      requires Valid() && i < j <= |elems|
      ensures p != [] && y != [] && z != [] && p + y + z == All() && y == elems[i..j]
      ensures p + z == [head] + (elems[..i] + elems[j..]) + [tail]
      ensures y[0] == All()[i + 1] && Last(y) == All()[j] && z[0] == All()[j + 1] && Last(p) == All()[i]
      ensures All()[j + 1].prev == Last(y) && y[0].prev == Last(p) && Last(y).next == z[0]
      ensures s == Nodes() && {y[0], Last(y), Last(p), z[0]} <= s && Last(p) !in y && z[0] !in y
      ensures ListChain(LinksOf(s), p + y + z)
    {
      AllIs();
      hide *;
      CutOut(head, elems, tail, i, j);
      s, p, y, z := Nodes(), All()[..i + 1], All()[i + 1..j + 1], All()[j + 1..];
      Neighbours(i);
      Neighbours(i + 1);
      Neighbours(j);
      Neighbours(j + 1);
      ValidWithin(s);
      PartsOfList(s, p, y, z);
    }

    /** list_remove, of the element at position k. The element's own links stay as they were, so
        that a walk can go on from it. */
    method Remove(elem: Elem, ghost k: nat) returns (next: Elem)
      requires Valid() && k < |elems| && elems[k] == elem
      modifies this`elems, elem.prev, elem.next
      ensures Valid()
      ensures elems == old(elems)[..k] + old(elems)[k + 1..]
      ensures next == old(All()[k + 2])
      ensures elem.prev == old(elem.prev) == old(All()[k]) && elem.next == old(elem.next) == next
    {
      hide *;
      ghost var s, p, y, z := BeforeCut(k, k + 1);
      assert y == [elem];
      ghost var m := LinksOf(s);
      LinkOut(elem, elem, s);
      UnlinkedIsList(m, p, y, z);
      elems := elems[..k] + elems[k + 1..];
      SpelledOut(s, p + z);
      next := elem.next;
    }

    /** What the links have to spell out for the list to be valid again. */
    lemma SpelledOut(s: set<Elem>, all: seq<Elem>)
      requires ListChain(LinksOf(s), all) && all == [head] + elems + [tail]
      ensures Valid()
    {
      AllIs();
      InChain(LinksOf(s), all);
      hide ListChain;
      hide Valid;
      hide All;
      ValidWithin(s);
    }

    // ----- Splicing -------------------------------------------------------------------------------

    /** The destination's two parts around position b. */
    lemma AroundPosition(b: nat) returns (q: seq<Elem>, r: seq<Elem>)
      requires Valid() && b <= |elems|
      ensures q != [] && r != [] && q + r == All() && r[0] == All()[b + 1] && {Last(q), r[0]} <= Nodes()
      ensures forall y: seq<Elem> :: q + y + r == [head] + (elems[..b] + y + elems[b..]) + [tail]
    {
      AllIs();
      hide *;
      q, r := [head] + elems[..b], elems[b..] + [tail];
      Neighbours(b);
      Neighbours(b + 1);
      assert q + r == All();
      assert All()[b] == Last(q) && All()[b + 1] == r[0];
      forall y: seq<Elem>
        ensures q + y + r == [head] + (elems[..b] + y + elems[b..]) + [tail]
      {
      }
    }

    /** What list_splice knows when the two positions of the segment differ. */
    static lemma BeforeSplice(dst: List, src: List, b: nat, i: nat, j: nat)
      returns (s: set<Elem>, p: seq<Elem>, y: seq<Elem>, z: seq<Elem>, q: seq<Elem>, r: seq<Elem>)
      requires src.Valid() && dst.Valid() && (src != dst ==> src.Nodes() !! dst.Nodes())
      requires i < j <= |src.elems| && b <= |dst.elems| && (src == dst ==> b < i || j <= b)
      ensures s == src.Nodes() + dst.Nodes() && SpliceParts(LinksOf(s), p, y, z, q, r, src == dst)
      ensures p != [] && y != [] && z != [] && q != [] && r != []
      ensures {y[0], Last(y), Last(p), z[0], Last(q), r[0]} <= s
      ensures y[0] == src.All()[i + 1] && Last(y) == src.All()[j + 1].prev && r[0] == dst.All()[b + 1]
      ensures y[0].prev == Last(p) && Last(y).next == z[0] && Last(y) in src.Nodes()
      ensures p + z == [src.head] + (src.elems[..i] + src.elems[j..]) + [src.tail]
      ensures q + y + r == [dst.head] + (if src == dst then Moved(src.elems, i, j, b)
                                         else dst.elems[..b] + src.elems[i..j] + dst.elems[b..]) + [dst.tail]
    {
      src.AllIs();
      dst.AllIs();
      hide *;
      s, p, y, z := src.BeforeCut(i, j);
      s := s + dst.Nodes();
      src.ValidWithin(s);
      if src == dst {
        q, r := MovedIs(src.head, src.elems, src.tail, i, j, b);
        EndsIn(s, p, y, z, q, r);
      } else {
        q, r := dst.AroundPosition(b);
        dst.ValidWithin(s);
        NodesApart(dst, src);
      }
      SplicePartsHold(LinksOf(s), p, y, z, q, r, src == dst);
    }

    static lemma NodesApart(a: List, b: List)
      requires a.Nodes() !! b.Nodes()
      ensures Apart(a.All(), b.All())
    {
      SetsApart(a.All(), b.All(), a.Nodes(), b.Nodes());
    }

    static lemma SetsApart(a: seq<Elem>, b: seq<Elem>, s: set<Elem>, t: set<Elem>)
      requires s !! t && (forall e | e in a :: e in s) && (forall e | e in b :: e in t)
      ensures Apart(a, b)
    {
      forall i, j | 0 <= i < |a| && 0 <= j < |b|
        ensures a[i] != b[j]
      {
        assert a[i] in s && b[j] in t;
      }
    }

    static lemma EndsIn(s: set<Elem>, p: seq<Elem>, y: seq<Elem>, z: seq<Elem>, q: seq<Elem>, r: seq<Elem>)
      requires q != [] && r != [] && q + r == p + z && ListChain(LinksOf(s), p + y + z)
      ensures Last(q) in s && r[0] in s
    {
      InChain(LinksOf(s), p + y + z);
      assert Last(q) in p + z && r[0] in p + z by {
        assert (q + r)[|q| - 1] == Last(q) && (q + r)[|q|] == r[0];
      }
      assert Last(q) in p + y + z && r[0] in p + y + z;
    }

    static lemma SplicePartsHold(m: map<Elem, Links>, p: seq<Elem>, y: seq<Elem>, z: seq<Elem>, q: seq<Elem>, r: seq<Elem>, same: bool)
      requires p != [] && y != [] && z != [] && q != [] && r != []
      requires ListChain(m, p + y + z)
      requires same ==> q + r == p + z
      requires !same ==> ListChain(m, q + r) && Apart(q + r, p + y + z)
      ensures SpliceParts(m, p, y, z, q, r, same)
    {
      hide ListChain;
      hide Apart;
    }

    /** list_splice: the elements i to j (exclusive) of src move to just before position b of dst,
        which may be the same list. The segment must not be asked to move before its own first
        element or into itself: the links would then no longer make up a list. */
    static method Splice(before: Elem, first: Elem, last: Elem,
                         ghost dst: List, ghost src: List, ghost b: nat, ghost i: nat, ghost j: nat)
      requires src.Valid() && dst.Valid() && (src != dst ==> src.Nodes() !! dst.Nodes())
      requires i <= j <= |src.elems| && b <= |dst.elems|
      requires src == dst ==> i == j || b < i || j <= b
      requires before == dst.All()[b + 1] && first == src.All()[i + 1] && last == src.All()[j + 1]
      modifies src`elems, dst`elems, src.Nodes(), dst.Nodes()
      ensures src.Valid() && dst.Valid()
      ensures src == dst && i < j ==> src.elems == Moved(old(src.elems), i, j, b)
      ensures src != dst ==> src.elems == old(src.elems)[..i] + old(src.elems)[j..]
      ensures src != dst ==> dst.elems == old(dst.elems)[..b] + old(src.elems)[i..j] + old(dst.elems)[b..]
      ensures i == j ==> src.elems == old(src.elems) && dst.elems == old(dst.elems)
    {
      hide *;
      src.AllIs();
      src.SamePosition(i + 1, j + 1);
      if first == last {
        assert src.elems[..i] + src.elems[i..] == src.elems;
        assert dst.elems[..b] + [] + dst.elems[b..] == dst.elems;
        return;
      }
      MoveSegment(before, first, last, dst, src, b, i, j);
    }

    /** The part of list_splice that follows the test for an empty segment. */
    static method MoveSegment(before: Elem, first: Elem, last: Elem,
                              ghost dst: List, ghost src: List, ghost b: nat, ghost i: nat, ghost j: nat)
      requires src.Valid() && dst.Valid() && (src != dst ==> src.Nodes() !! dst.Nodes())
      requires i < j <= |src.elems| && b <= |dst.elems|
      requires src == dst ==> b < i || j <= b
      requires before == dst.All()[b + 1] && first == src.All()[i + 1] && last == src.All()[j + 1]
      modifies src`elems, dst`elems, src.Nodes(), dst.Nodes()
      ensures src.Valid() && dst.Valid()
      ensures src == dst ==> src.elems == Moved(old(src.elems), i, j, b)
      ensures src != dst ==> src.elems == old(src.elems)[..i] + old(src.elems)[j..]
      ensures src != dst ==> dst.elems == old(dst.elems)[..b] + old(src.elems)[i..j] + old(dst.elems)[b..]
    {
      hide *;
      ghost var s, p, y, z, q, r := BeforeSplice(dst, src, b, i, j);
      ghost var m := LinksOf(s);
      SpliceUnlinks(m, p, y, z, q, r, src == dst);
      SpliceLinks(m, p, y, z, q, r, src == dst);
      var l := last.prev;
      ghost var cut := Unlinked(m, Last(p), z[0]);
      LinkOut(first, l, s);
      assert LinksOf(s) == cut;
      ReadyToLink(s, q, y, r);
      LinkIn(before, first, l, s);
      ghost var was, seg := dst.elems, src.elems[i..j];
      if src == dst {
        src.elems := Moved(src.elems, i, j, b);
      } else {
        src.elems := src.elems[..i] + src.elems[j..];
        dst.elems := was[..b] + seg + was[b..];
        src.SpelledOut(s, p + z);
      }
      dst.SpelledOut(s, q + y + r);
    }

    static lemma ReadyToLink(s: set<Elem>, q: seq<Elem>, y: seq<Elem>, r: seq<Elem>)
      requires q != [] && y != [] && r != [] && Apart(q, y) && Apart(y, r)
      requires r[0] in s && LinksOf(s)[r[0]].prev == Last(q)
      ensures r[0].prev == Last(q) && Last(q) != y[0] && Last(q) != Last(y) && y[0] != r[0] && Last(y) != r[0]
    {
    }

    lemma SamePosition(i: nat, j: nat)
      requires Valid() && i < |All()| && j < |All()|
      ensures All()[i] == All()[j] <==> i == j
    {
    }

    // ----- Sorting --------------------------------------------------------------------------------

    /** list_next, from the element at position i of the whole list. */
    function Next(e: Elem, ghost i: nat): (n: Elem)
      requires Valid() && i + 1 < |All()| && All()[i] == e
      reads this, Nodes()
      ensures n == All()[i + 1]
    {
      hide *;
      Neighbours(i);
      e.next
    }

    /** list_prev, from the element at position i of the whole list. */
    function Prev(e: Elem, ghost i: nat): (n: Elem)
      requires Valid() && 0 < i < |All()| && All()[i] == e
      reads this, Nodes()
      ensures n == All()[i - 1]
    {
      hide *;
      Neighbours(i);
      e.prev
    }

    lemma ElementAt(i: nat)
      requires i <= |elems|
      ensures |All()| == |elems| + 2
      ensures All()[i + 1] == if i < |elems| then elems[i] else tail
      ensures All()[i] == if i == 0 then head else elems[i - 1]
    {
    }

    /** is_sorted, for the elements i to j (exclusive). */
    method IsSorted(a: Elem, b: Elem, less: (Elem, Elem) -> bool, ghost i: nat, ghost j: nat) returns (ok: bool)
      requires Valid() && i <= j <= |elems| && a == All()[i + 1] && b == All()[j + 1]
      ensures Valid()
      ensures ok <==> Ascending(less, elems[i..j])
    {
      hide *;
      ElementAt(j);
      if a != b {
        SamePosition(i + 1, j + 1);
        ghost var k := i + 1;
        var e := Next(a, k);
        AscendsByOne(less, elems, i);
        while e != b
          invariant Valid() && |All()| == |elems| + 2
          invariant i < k <= j && e == All()[k + 1]
          invariant AscendsTo(less, elems, i, k)
          decreases j - k
        {
          ElementAt(k);
          SamePosition(j + 1, k + 1);
          var d := Prev(e, k + 1);
          if less(e, d) {
            AscendsNoFurther(less, elems, i, k, j);
            return false;
          }
          AscendsFurther(less, elems, i, k);
          e := Next(e, k + 1);
          k := k + 1;
        }
        AscendsAll(less, i, j, k);
      } else {
        SamePosition(i + 1, j + 1);
        AscendsTrivially(less, i);
      }
      return true;
    }

    lemma AscendsTrivially(less: (Elem, Elem) -> bool, i: nat)
      requires i <= |elems|
      ensures Ascending(less, elems[i..i])
    {
    }

    lemma AscendsAll(less: (Elem, Elem) -> bool, i: nat, j: nat, k: nat)
      requires Valid() && AscendsTo(less, elems, i, k) && j <= |elems| && All()[j + 1] == All()[k + 1]
      ensures Ascending(less, elems[i..j])
    {
      SamePosition(j + 1, k + 1);
    }

    /** find_end_of_run: the run that starts at position i, not looking beyond position j. */
    method FindEndOfRun(a: Elem, b: Elem, less: (Elem, Elem) -> bool, ghost i: nat, ghost j: nat)
      returns (e: Elem, ghost k: nat)
      requires Valid() && i < j <= |elems| && a == All()[i + 1] && b == All()[j + 1]
      ensures Valid() && i < k <= j && e == All()[k + 1]
      ensures k == i + RunEnd(less, elems[i..j], 0)
      ensures i + RunEnd(less, elems[i..j], 0) + 1 < |All()| && e == All()[i + RunEnd(less, elems[i..j], 0) + 1]
    {
      hide *;
      ElementAt(j);
      k := i + 1;
      e := Next(a, k);
      AscendsByOne(less, elems, i);
      while true
        invariant Valid() && |All()| == |elems| + 2
        invariant i < k <= j && e == All()[k + 1]
        invariant AscendsTo(less, elems, i, k)
        decreases j - k
      {
        SamePosition(j + 1, k + 1);
        if e == b {
          break;
        }
        ElementAt(k);
        var d := Prev(e, k + 1);
        if less(e, d) {
          break;
        }
        AscendsFurther(less, elems, i, k);
        e := Next(e, k + 1);
        k := k + 1;
      }
      RunStopsHere(less, elems, i, k, j);
    }

    /** inplace_merge, of the runs at positions p to q and q to r. */
    method InplaceMerge(a0: Elem, a1b0: Elem, b1: Elem, less: (Elem, Elem) -> bool, ghost p: nat, ghost q: nat, ghost r: nat)
      requires Valid() && p < q < r <= |elems|
      requires a0 == All()[p + 1] && a1b0 == All()[q + 1] && b1 == All()[r + 1]
      requires Ascending(less, elems[p..q]) && Ascending(less, elems[q..r])
      modifies this`elems, Nodes()
      ensures Valid() && Nodes() == old(Nodes())
      ensures elems == old(elems)[..p] + Merge(less, old(elems)[p..q], old(elems)[q..r]) + old(elems)[r..]
      ensures |All()| > r + 1 && b1 == All()[r + 1]
    {
      hide *;
      AllIs();
      var firstSorted := IsSorted(a0, a1b0, less, p, q);
      var secondSorted := IsSorted(a1b0, b1, less, q, r);
      assert firstSorted && secondSorted;
      ghost var was, nodes, merged := elems, Nodes(), Merge(less, elems[p..q], elems[q..r]);
      ghost var i, j := p, q;
      var x, y := a0, a1b0;
      MergingStarts(less, elems, p, q, r);
      while x != y && y != b1
        invariant Valid() && Nodes() == nodes && |All()| == |elems| + 2
        invariant p <= i <= j <= r <= |elems| && Merging(less, was, elems, p, i, j, r, merged)
        invariant x == All()[i + 1] && y == All()[j + 1] && b1 == All()[r + 1]
        decreases r - i
      {
        InMerge(i, j, r);
        if !less(y, x) {
          MergeTakesFirst(less, was, elems, p, i, j, r, merged);
          x := Next(x, i + 1);
          i := i + 1;
        } else {
          y := TakeSecond(x, y, b1, less, was, p, i, j, r, merged);
          i, j := i + 1, j + 1;
        }
      }
      SamePosition(i + 1, j + 1);
      SamePosition(j + 1, r + 1);
      MergingEnds(less, was, elems, p, i, j, r, merged);
    }

    /** The step of inplace_merge that takes an element of the second run. */
    method TakeSecond(x: Elem, y: Elem, b1: Elem, less: (Elem, Elem) -> bool, ghost was: seq<Elem>,
                      ghost p: nat, ghost i: nat, ghost j: nat, ghost r: nat, ghost merged: seq<Elem>)
      returns (next: Elem)
      requires Valid() && p <= i < j < r <= |elems| && Merging(less, was, elems, p, i, j, r, merged)
      requires x == All()[i + 1] && y == All()[j + 1] && b1 == All()[r + 1]
      requires less(elems[j], elems[i])
      modifies this`elems, Nodes()
      ensures Valid() && Nodes() == old(Nodes()) && |All()| == |elems| + 2 && r <= |elems|
      ensures Merging(less, was, elems, p, i + 1, j + 1, r, merged)
      ensures x == All()[i + 2] && next == All()[j + 2] && b1 == All()[r + 1]
    {
      hide *;
      ghost var s, nodes := elems, Nodes();
      AllIs();
      MergeTakesSecond(less, was, s, Moved(s, j, j + 1, i), p, i, j, r, merged);
      next := Next(y, j + 1);
      Splice(x, Prev(next, j + 2), next, this, this, i, j, j + 1);
      AfterMove(s, i, j, r, nodes);
    }

    lemma InMerge(i: nat, j: nat, r: nat)
      requires Valid() && i <= j <= r <= |elems|
      requires All()[i + 1] != All()[j + 1] && All()[j + 1] != All()[r + 1]
      ensures i < j < r && All()[i + 1] == elems[i] && All()[j + 1] == elems[j]
    {
      ElementAt(i);
      ElementAt(j);
    }

    /** Where the elements are after one of them has moved back from position j to position i. */
    lemma AfterMove(s: seq<Elem>, i: nat, j: nat, r: nat, nodes: set<Elem>)
      requires i < j < r <= |s| && elems == Moved(s, j, j + 1, i) && nodes == SetOf([head] + s + [tail])
      ensures Nodes() == nodes && |All()| == |elems| + 2 && |elems| == |s|
      ensures All()[i + 2] == ([head] + s + [tail])[i + 1]
      ensures All()[j + 2] == ([head] + s + [tail])[j + 2]
      ensures All()[r + 1] == ([head] + s + [tail])[r + 1]
    {
      MovedBack(s, i, j, i, r);
      MovedBackAt(s, i, j);
      AllIs();
      hide *;
      SameSet(head, s, elems, tail);
      assert ([head] + s + [tail])[i + 1] == s[i];
    }

    static lemma SameSet(h: Elem, s: seq<Elem>, s': seq<Elem>, t: Elem)
      requires multiset(s) == multiset(s')
      ensures SetOf([h] + s + [t]) == SetOf([h] + s' + [t])
    {
      forall e
        ensures e in s <==> e in s'
      {
        assert e in s <==> e in multiset(s);
        assert e in s' <==> e in multiset(s');
      }
    }

    /** One pass of list_sort: merge the runs two by two, and count the runs that come out. */
    method SortPass(less: (Elem, Elem) -> bool) returns (outputRuns: nat)
      requires Valid()
      modifies this`elems, Nodes()
      ensures Valid() && Nodes() == old(Nodes())
      ensures elems == Pass(less, old(elems)) && outputRuns == PassRuns(less, old(elems))
    {
      hide *;
      AllIs();
      ghost var was, nodes, i := elems, Nodes(), 0;
      outputRuns := 0;
      var a0 := Begin();
      PassingStarts(less, elems);
      while a0 != tail
        invariant Valid() && Nodes() == nodes && |All()| == |elems| + 2
        invariant i <= |elems| && a0 == All()[i + 1] && tail == All()[|elems| + 1]
        invariant Passing(less, was, elems, i, outputRuns)
        decreases |elems| - i
      {
        SamePosition(i + 1, |elems| + 1);
        ghost var c, rest := outputRuns, elems[i..];
        WholeRest(elems, i);
        outputRuns := outputRuns + 1;
        var a1b0, q := FindEndOfRun(a0, tail, less, i, |elems|);
        SamePosition(q + 1, |elems| + 1);
        if a1b0 == tail {
          PassingLastRun(less, was, elems, i, c);
          return;
        }
        a0, i := MergeNextRuns(a0, a1b0, less, was, i, q, c);
      }
      SamePosition(i + 1, |elems| + 1);
      PassingLastRun(less, was, elems, i, outputRuns);
    }

    static lemma WholeRest(s: seq<Elem>, i: nat)
      requires i <= |s|
      ensures s[i..|s|] == s[i..]
    {
    }

    /** Finds the end of the second run and merges it with the first. */
    method MergeNextRuns(a0: Elem, a1b0: Elem, less: (Elem, Elem) -> bool,
                         ghost was: seq<Elem>, ghost i: nat, ghost q: nat, ghost c: nat)
      returns (b1: Elem, ghost r: nat)
      requires Valid() && i < q < |elems| && a0 == All()[i + 1] && a1b0 == All()[q + 1]
      requires q == i + RunEnd(less, elems[i..], 0) && Passing(less, was, elems, i, c)
      modifies this`elems, Nodes()
      ensures Valid() && Nodes() == old(Nodes()) && |All()| == |elems| + 2
      ensures q < r <= |elems| == old(|elems|) && b1 == All()[r + 1] && tail == All()[|elems| + 1]
      ensures Passing(less, was, elems, r, c + 1)
    {
      hide *;
      AllIs();
      ghost var s := elems;
      RunsAscend(less, elems, i);
      RunsAscend(less, elems, q);
      b1, r := FindEndOfRun(a1b0, tail, less, q, |elems|);
      InplaceMerge(a0, a1b0, b1, less, i, q, r);
      PassingMerged(less, was, s, i, c, q, r, elems);
      AllIs();
    }

    /** list_sort: a stable sort in place. */
    method Sort(less: (Elem, Elem) -> bool, ghost dom: set<Elem>)
      requires Valid() && StrictWeakOrder(less, dom) && Within(elems, dom)
      modifies this`elems, Nodes()
      ensures Valid() && Nodes() == old(Nodes())
      ensures Sorted(less, elems) && StablePermutation(less, old(elems), elems)
    {
      hide *;
      AllIs();
      ghost var first, nodes := elems, Nodes();
      StableReflexive(less, elems);
      var more := true;
      while more
        invariant Valid() && Nodes() == nodes
        invariant Within(elems, dom) && StablePermutation(less, first, elems)
        invariant !more ==> Sorted(less, elems)
        decreases Runs(less, elems), more
      {
        AfterPass(less, dom, first, elems);
        var outputRuns := SortPass(less);
        more := outputRuns > 1;
      }
      AllIs();
      var front := Begin();
      var ok := IsSorted(front, tail, less, 0, |elems|);
      assert ok by {
        assert elems[0..|elems|] == elems;
        AscendingIsSorted(less, dom, elems);
      }
    }

    /** list_insert_ordered: elem goes just before the first element that it is less than. On a
        sorted list that is the merge with a list of its own (Merge's lemmas then give the order). */
    method InsertOrdered(elem: Elem, less: (Elem, Elem) -> bool)
      requires Valid() && elem !in Nodes()
      modifies this`elems, elem, Nodes()
      ensures Valid()
      ensures elems == Merge(less, old(elems), [elem])
    {
      hide *;
      AllIs();
      var e := Begin();
      ghost var k := 0;
      while e != tail
        invariant Valid() && Nodes() == old(Nodes()) && elems == old(elems) && |All()| == |elems| + 2
        invariant k <= |elems| && tail == All()[|elems| + 1] && e == All()[k + 1]
        invariant forall i :: 0 <= i < k ==> !less(elem, elems[i])
        decreases |elems| - k
      {
        SamePosition(k + 1, |elems| + 1);
        ElementAt(k);
        if less(elem, e) {
          break;
        }
        e := Next(e, k + 1);
        k := k + 1;
      }
      SamePosition(k + 1, |elems| + 1);
      ElementAt(k);
      MergeOneAt(less, elems, elem, k);
      PreviousIn(k);
      Insert(e, elem, k);
    }

    lemma PreviousIn(k: nat)
      requires Valid() && k <= |elems|
      ensures All()[k + 1] in Nodes() && All()[k + 1].prev in Nodes()
    {
      AllIs();
      hide *;
      Neighbours(k + 1);
      Neighbours(k);
    }

    /** list_push_front. */
    method PushFront(elem: Elem)
      requires Valid() && elem !in Nodes()
      modifies this`elems, elem, Nodes()
      ensures Valid()
      ensures elems == [elem] + old(elems)
    {
      hide *;
      ElementAt(0);
      PreviousIn(0);
      assert elems[..0] + [elem] + elems[0..] == [elem] + elems;
      Insert(Begin(), elem, 0);
    }

    /** list_push_back. */
    method PushBack(elem: Elem)
      requires Valid() && elem !in Nodes()
      modifies this`elems, elem, Nodes()
      ensures Valid()
      ensures elems == old(elems) + [elem]
    {
      hide *;
      AllIs();
      PreviousIn(|elems|);
      assert elems[..|elems|] + [elem] + elems[|elems|..] == elems + [elem];
      Insert(tail, elem, |elems|);
    }

    /** list_pop_front. */
    method PopFront() returns (front: Elem)
      requires Valid() && elems != []
      modifies this`elems, Nodes()
      ensures Valid()
      ensures front == old(elems[0]) && elems == old(elems[1..])
    {
      hide *;
      ElementAt(0);
      front := Begin();
      NeighboursIn(0);
      var next := Remove(front, 0);
    }

    /** list_pop_back. */
    method PopBack() returns (back: Elem)
      requires Valid() && elems != []
      modifies this`elems, Nodes()
      ensures Valid()
      ensures back == old(elems[|elems| - 1]) && elems == old(elems[..|elems| - 1])
    {
      hide *;
      AllIs();
      ElementAt(|elems| - 1);
      back := Prev(tail, |elems| + 1);
      NeighboursIn(|elems| - 1);
      var next := Remove(back, |elems| - 1);
    }

    lemma NeighboursIn(k: nat)
      requires Valid() && k < |elems|
      ensures elems[k].prev in Nodes() && elems[k].next in Nodes()
    {
      ElementAt(k);
      hide *;
      Neighbours(k);
      Neighbours(k + 1);
      Neighbours(k + 2);
    }

    static lemma InReverse(nodes: set<Elem>, all: seq<Elem>, k: nat)
      requires Reversing(LinksOf(nodes), all, k) && k + 2 < |all|
      ensures all[k + 1] in nodes && all[k + 1].next == all[k + 2]
      ensures Reversing(LinksOf(nodes)[all[k + 1] := Links(all[k + 1].next, all[k + 1].prev)], all, k + 1)
    {
      ReversingStep(LinksOf(nodes), all, k);
      assert all[k + 1] in LinksOf(nodes);
    }

    static lemma AtEndOfReverse(nodes: set<Elem>, all: seq<Elem>, head: Elem, es: seq<Elem>, tail: Elem, k: nat)
      requires Reversing(LinksOf(nodes), all, k) && all == [head] + es + [tail] && es != []
      requires all[k + 1] == tail
      ensures k == |es| && {head, tail, es[0], Last(es)} <= nodes
      ensures head.next == es[0] && tail.prev == Last(es)
      ensures head != tail && {head, tail} !! {es[0], Last(es)}
    {
      assert all[|es| + 1] == tail && all[1] == es[0] && all[|es|] == Last(es) && all[0] == head;
      assert head in LinksOf(nodes) && tail in LinksOf(nodes);
    }

    // ----- Reversing ------------------------------------------------------------------------------

    /** list_reverse. */
    method Reverse()
      requires Valid()
      modifies this`elems, Nodes()
      ensures Valid() && Nodes() == old(Nodes())
      ensures elems == Backwards(old(elems))
    {
      hide *;
      ghost var was, all, nodes := elems, All(), Nodes();
      AllIs();
      SamePosition(1, |elems| + 1);
      BackwardsSameSet(head, elems, tail);
      if Begin() != tail {
        var e: Elem? := Begin();
        ghost var k := 0;
        ValidWithin(nodes);
        ReversingStarts(LinksOf(nodes), all);
        while e != tail
          invariant elems == was && k <= |was|
          invariant e == all[k + 1] && Reversing(LinksOf(nodes), all, k)
          decreases |was| - k
        {
          assert k != |was|;
          InReverse(nodes, all, k);
          SwapLinks(e, nodes);
          e := e.prev;
          k := k + 1;
        }
        AtEndOfReverse(nodes, all, head, was, tail, k);
        ReversingEnds(LinksOf(nodes), all, head, was, tail);
        SwapEnds(head, tail, nodes);
        elems := Backwards(was);
        SpelledOut(nodes, [head] + elems + [tail]);
        AllIs();
      } else {
        assert Backwards(elems) == elems;
      }
    }

    static lemma BackwardsSameSet(h: Elem, s: seq<Elem>, t: Elem)
      ensures SetOf([h] + s + [t]) == SetOf([h] + Backwards(s) + [t])
      ensures s == [] ==> Backwards(s) == s
    {
      var r := Backwards(s);
      forall e
        ensures e in s <==> e in r
      {
        if e in s {
          var i :| 0 <= i < |s| && s[i] == e;
          assert r[|s| - 1 - i] == e;
        }
      }
    }
  }
}
