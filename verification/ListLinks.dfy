/** The links of the doubly linked lists of lib/kernel/list.c, seen as a map from elements to their
    two pointers, and what taking a segment out of a chain or putting one in does to that map. */
module ListLinks {

  /** struct list_elem: it is embedded in the objects that a list holds. */
  class Elem {
    var prev: Elem?
    var next: Elem?

    constructor ()
      ensures prev == null && next == null
    {
      prev, next := null, null;
    }
  }

  datatype Links = Links(prev: Elem?, next: Elem?)

  ghost function LinksOf(nodes: set<Elem>): map<Elem, Links>
    reads nodes
  {
    map e | e in nodes :: Links(e.prev, e.next)
  }

  function SetPrev(m: map<Elem, Links>, e: Elem, to: Elem?): map<Elem, Links>
    requires e in m
  {
    m[e := m[e].(prev := to)]
  }

  function SetNext(m: map<Elem, Links>, e: Elem, to: Elem?): map<Elem, Links>
    requires e in m
  {
    m[e := m[e].(next := to)]
  }

  // ----- Chains -----------------------------------------------------------------------------------

  predicate Distinct(s: seq<Elem>) {
    forall i, j :: 0 <= i < j < |s| ==> s[i] != s[j]
  }

  predicate Apart(a: seq<Elem>, b: seq<Elem>) {
    forall i, j :: 0 <= i < |a| && 0 <= j < |b| ==> a[i] != b[j]
  }

  /** The elements of s are linked to each other in that order, in both directions. */
  predicate Chain(m: map<Elem, Links>, s: seq<Elem>) {
    && Distinct(s)
    && (forall i :: 0 <= i < |s| ==> s[i] in m)
    && (forall i :: 0 <= i < |s| - 1 ==> m[s[i]].next == s[i + 1])
    && (forall i :: 0 < i < |s| ==> m[s[i]].prev == s[i - 1])
  }

  function Last(s: seq<Elem>): (e: Elem)
    requires s != []
    ensures e == s[|s| - 1] && e in s
  {
    s[|s| - 1]
  }

  /** Two chains whose ends point at each other, and nothing else, make up a longer chain. */
  predicate Joined(m: map<Elem, Links>, a: seq<Elem>, b: seq<Elem>)
    requires a != [] && b != []
  {
    && Apart(a, b)
    && Last(a) in m && m[Last(a)].next == b[0]
    && b[0] in m && m[b[0]].prev == Last(a)
  }

  lemma ChainSplit(m: map<Elem, Links>, a: seq<Elem>, b: seq<Elem>)
    requires a != [] && b != []
    requires Chain(m, a + b)
    ensures Chain(m, a) && Chain(m, b) && Joined(m, a, b)
  {
    var s := a + b;
    assert forall i :: 0 <= i < |a| ==> s[i] == a[i];
    assert forall i :: 0 <= i < |b| ==> s[|a| + i] == b[i];
    forall i, j | 0 <= i < j < |b|
      ensures b[i] != b[j]
    {
      assert s[|a| + i] != s[|a| + j];
    }
    forall i | 0 <= i < |b|
      ensures b[i] in m
      ensures i < |b| - 1 ==> m[b[i]].next == b[i + 1]
      ensures i > 0 ==> m[b[i]].prev == b[i - 1]
    {
      assert s[|a| + i] in m;
    }
    forall i, j | 0 <= i < |a| && 0 <= j < |b|
      ensures a[i] != b[j]
    {
      assert s[i] != s[|a| + j];
    }
    assert m[s[|a| - 1]].next == s[|a|];
    assert m[s[|a|]].prev == s[|a| - 1];
  }

  lemma ChainJoin(m: map<Elem, Links>, a: seq<Elem>, b: seq<Elem>)
    requires a != [] && b != []
    requires Chain(m, a) && Chain(m, b) && Joined(m, a, b)
    ensures Chain(m, a + b)
  {
    var s := a + b;
    assert forall i :: 0 <= i < |a| ==> s[i] == a[i];
    assert forall i :: |a| <= i < |s| ==> s[i] == b[i - |a|];
    forall i | 0 <= i < |s|
      ensures s[i] in m
      ensures i < |s| - 1 ==> m[s[i]].next == s[i + 1]
      ensures i > 0 ==> m[s[i]].prev == s[i - 1]
    {
    }
  }

  /** A chain survives changes to other elements and to the outward links of its ends. */
  lemma ChainFrame(m: map<Elem, Links>, m': map<Elem, Links>, s: seq<Elem>)
    requires Chain(m, s)
    requires forall i :: 0 <= i < |s| ==> s[i] in m'
    requires forall i :: 0 <= i < |s| - 1 ==> m'[s[i]].next == m[s[i]].next
    requires forall i :: 0 < i < |s| ==> m'[s[i]].prev == m[s[i]].prev
    ensures Chain(m', s)
  {
  }

  lemma ChainUntouched(m: map<Elem, Links>, m': map<Elem, Links>, s: seq<Elem>)
    requires Chain(m, s)
    requires forall i :: 0 <= i < |s| ==> s[i] in m' && m'[s[i]] == m[s[i]]
    ensures Chain(m', s)
  {
  }

  lemma SetNextOfLast(m: map<Elem, Links>, s: seq<Elem>, to: Elem?)
    requires s != [] && Chain(m, s)
    ensures Chain(SetNext(m, Last(s), to), s)
  {
    ChainFrame(m, SetNext(m, Last(s), to), s);
  }

  lemma SetPrevOfFirst(m: map<Elem, Links>, s: seq<Elem>, to: Elem?)
    requires s != [] && Chain(m, s)
    ensures Chain(SetPrev(m, s[0], to), s)
  {
    ChainFrame(m, SetPrev(m, s[0], to), s);
  }

  lemma SetApart(m: map<Elem, Links>, s: seq<Elem>, e: Elem, to: Elem?)
    requires Chain(m, s) && e in m && e !in s
    ensures Chain(SetNext(m, e, to), s) && Chain(SetPrev(m, e, to), s)
  {
    ChainUntouched(m, SetNext(m, e, to), s);
    ChainUntouched(m, SetPrev(m, e, to), s);
  }

  // ----- Taking out and putting in ----------------------------------------------------------------

  /** The first two assignments of list_splice, or the two of list_remove. */
  function Unlinked(m: map<Elem, Links>, before: Elem, after: Elem): map<Elem, Links>
    requires before in m && after in m
  {
    SetPrev(SetNext(m, before, after), after, before)
  }

  /** The last four assignments of list_splice. */
  function Linked(m: map<Elem, Links>, before: Elem, first: Elem, last: Elem, after: Elem): map<Elem, Links>
    requires before in m && first in m && last in m && after in m
  {
    SetPrev(SetNext(SetNext(SetPrev(m, first, before), last, after), before, first), after, last)
  }

  /** The new links of Unlinked close the gap; those of the segment itself stay. */
  lemma UnlinkedIsChain(m: map<Elem, Links>, p: seq<Elem>, y: seq<Elem>, z: seq<Elem>)
    requires p != [] && y != [] && z != [] && Chain(m, p + y + z)
    ensures Last(p) in m && z[0] in m && Apart(p, z) && Apart(p, y) && Apart(y, z)
    ensures Chain(Unlinked(m, Last(p), z[0]), p + z)
    ensures Chain(Unlinked(m, Last(p), z[0]), y)
    ensures forall i :: 0 <= i < |y| ==> Unlinked(m, Last(p), z[0])[y[i]] == m[y[i]]
  {
    hide Chain;
    hide SetPrev;
    hide SetNext;
    hide Apart;
    Parts(m, p, y, z);
    KeepsDomain(m, Last(p), z[0]);
    var m1 := SetNext(m, Last(p), z[0]);
    var m2 := SetPrev(m1, z[0], Last(p));
    NotIn(p, y, Last(p));
    NotIn(p, z, Last(p));
    NotIn'(p, z, z[0]);
    NotIn'(y, z, z[0]);
    SetNextOfLast(m, p, z[0]);
    SetApart(m, y, Last(p), z[0]);
    SetApart(m, z, Last(p), z[0]);
    SetApart(m1, p, z[0], Last(p));
    SetApart(m1, y, z[0], Last(p));
    SetPrevOfFirst(m1, z, Last(p));
    UnlinkedEnds(m, p, y, z);
    ChainJoin(m2, p, z);
  }

  lemma Parts(m: map<Elem, Links>, p: seq<Elem>, y: seq<Elem>, z: seq<Elem>)
    requires p != [] && y != [] && z != [] && Chain(m, p + y + z)
    ensures Chain(m, p) && Chain(m, y) && Chain(m, z)
    ensures Apart(p, y) && Apart(p, z) && Apart(y, z)
    ensures Joined(m, p, y) && Joined(m, y, z)
    ensures Last(p) in m && z[0] in m && y[0] in m && Last(y) in m
  {
    ChainSplit(m, p + y, z);
    ChainSplit(m, p, y);
    assert forall i :: 0 <= i < |p| ==> (p + y)[i] == p[i];
    assert forall i :: 0 <= i < |y| ==> (p + y)[|p| + i] == y[i];
  }

  lemma UnlinkedEnds(m: map<Elem, Links>, p: seq<Elem>, y: seq<Elem>, z: seq<Elem>)
    requires p != [] && y != [] && z != []
    requires Apart(p, y) && Apart(p, z) && Apart(y, z) && Last(p) in m && z[0] in m
    requires forall i :: 0 <= i < |y| ==> y[i] in m
    ensures Joined(Unlinked(m, Last(p), z[0]), p, z)
    ensures forall i :: 0 <= i < |y| ==> Unlinked(m, Last(p), z[0])[y[i]] == m[y[i]]
  {
  }

  lemma NotIn(a: seq<Elem>, b: seq<Elem>, e: Elem)
    requires Apart(a, b) && e in a
    ensures e !in b
  {
  }

  lemma NotIn'(a: seq<Elem>, b: seq<Elem>, e: Elem)
    requires Apart(a, b) && e in b
    ensures e !in a
  {
  }

  /** The new links of Linked put a loose segment between two parts of a chain. */
  lemma LinkedIsChain(m: map<Elem, Links>, q: seq<Elem>, y: seq<Elem>, r: seq<Elem>)
    requires q != [] && y != [] && r != [] && Chain(m, q + r) && Chain(m, y)
    requires Apart(q, y) && Apart(y, r)
    ensures Last(q) in m && r[0] in m && y[0] in m && Last(y) in m
    ensures Chain(Linked(m, Last(q), y[0], Last(y), r[0]), q + y + r)
  {
    ChainSplit(m, q, r);
    assert y[0] in m && Last(y) in m;
    hide Chain;
    hide SetPrev;
    hide SetNext;
    hide Apart;
    NotIn(q, y, Last(q));
    NotIn(q, r, Last(q));
    NotIn'(q, r, r[0]);
    NotIn'(y, r, r[0]);
    NotIn'(q, y, y[0]);
    NotIn(y, r, y[0]);
    NotIn'(q, y, Last(y));
    NotIn(y, r, Last(y));
    KeepsDomain(m, y[0], Last(q));
    var m1 := SetPrev(m, y[0], Last(q));
    SetApart(m, q, y[0], Last(q));
    SetPrevOfFirst(m, y, Last(q));
    SetApart(m, r, y[0], Last(q));
    KeepsDomain(m1, Last(y), r[0]);
    var m2 := SetNext(m1, Last(y), r[0]);
    SetApart(m1, q, Last(y), r[0]);
    SetNextOfLast(m1, y, r[0]);
    SetApart(m1, r, Last(y), r[0]);
    KeepsDomain(m2, Last(q), y[0]);
    var m3 := SetNext(m2, Last(q), y[0]);
    SetNextOfLast(m2, q, y[0]);
    SetApart(m2, y, Last(q), y[0]);
    SetApart(m2, r, Last(q), y[0]);
    KeepsDomain(m3, r[0], Last(y));
    var m4 := SetPrev(m3, r[0], Last(y));
    SetApart(m3, q, r[0], Last(y));
    SetApart(m3, y, r[0], Last(y));
    SetPrevOfFirst(m3, r, Last(y));
    LinkedEnds(m, q, y, r);
    ChainJoin(m4, q, y);
    ChainJoin(m4, q + y, r);
  }

  lemma KeepsDomain(m: map<Elem, Links>, e: Elem, to: Elem?)
    requires e in m
    ensures SetPrev(m, e, to).Keys == m.Keys && SetNext(m, e, to).Keys == m.Keys
  {
  }

  lemma LinkedEnds(m: map<Elem, Links>, q: seq<Elem>, y: seq<Elem>, r: seq<Elem>)
    requires q != [] && y != [] && r != []
    requires Apart(q, y) && Apart(y, r) && Apart(q, r)
    requires Last(q) in m && r[0] in m && y[0] in m && Last(y) in m
    requires Distinct(y)
    ensures Joined(Linked(m, Last(q), y[0], Last(y), r[0]), q, y)
    ensures Joined(Linked(m, Last(q), y[0], Last(y), r[0]), q + y, r)
  {
    var m' := Linked(m, Last(q), y[0], Last(y), r[0]);
    assert Last(q) != y[0] && Last(y) != r[0] && Last(q) != r[0] && y[0] != r[0] && Last(q) != Last(y);
    assert Last(q + y) == Last(y);
    assert m'[Last(q)].next == y[0];
    assert m'[y[0]].prev == Last(q);
    assert m'[Last(y)].next == r[0];
    assert m'[r[0]].prev == Last(y);
  }

  /** A chain with nothing beyond its ends: a whole list with its two sentinels. */
  predicate ListChain(m: map<Elem, Links>, s: seq<Elem>) {
    && s != []
    && Chain(m, s)
    && m[s[0]].prev == null
    && m[Last(s)].next == null
  }

  lemma ListChainSame(m: map<Elem, Links>, m': map<Elem, Links>, s: seq<Elem>)
    requires forall e | e in s :: e in m && e in m' && m[e] == m'[e]
    ensures ListChain(m, s) <==> ListChain(m', s)
  {
  }

  lemma UnlinkedIsList(m: map<Elem, Links>, p: seq<Elem>, y: seq<Elem>, z: seq<Elem>)
    requires p != [] && y != [] && z != [] && ListChain(m, p + y + z)
    ensures Last(p) in m && z[0] in m && Apart(p, z) && Apart(p, y) && Apart(y, z)
    ensures ListChain(Unlinked(m, Last(p), z[0]), p + z)
    ensures Chain(Unlinked(m, Last(p), z[0]), y)
    ensures forall i :: 0 <= i < |y| ==> Unlinked(m, Last(p), z[0])[y[i]] == m[y[i]]
  {
    UnlinkedIsChain(m, p, y, z);
    hide Chain;
    NotIn(p, z, p[0]);
    NotIn(p, z, Last(p));
    NotIn'(p, z, z[0]);
    NotIn'(p, z, Last(z));
  }

  lemma LinkedIsList(m: map<Elem, Links>, q: seq<Elem>, y: seq<Elem>, r: seq<Elem>)
    requires q != [] && y != [] && r != [] && ListChain(m, q + r) && Chain(m, y)
    requires Apart(q, y) && Apart(y, r)
    ensures Last(q) in m && r[0] in m && y[0] in m && Last(y) in m
    ensures ListChain(Linked(m, Last(q), y[0], Last(y), r[0]), q + y + r)
  {
    LinkedIsChain(m, q, y, r);
    ChainSplit(m, q, r);
    hide Chain;
    NotIn(q, r, q[0]);
    NotIn(q, y, q[0]);
    NotIn'(q, r, Last(r));
    NotIn'(y, r, Last(r));
    assert (q + r)[0] == q[0] && Last(q + r) == Last(r);
    assert (q + y + r)[0] == q[0] && Last(q + y + r) == Last(r);
    KeepsOuterEnds(m, q[0], Last(q), y[0], Last(y), r[0], Last(r));
  }

  lemma KeepsOuterEnds(m: map<Elem, Links>, head: Elem, before: Elem, first: Elem, last: Elem, after: Elem, tail: Elem)
    requires {head, before, first, last, after, tail} <= m.Keys
    requires head != first && head != after && tail != before && tail != last
    ensures var m' := Linked(m, before, first, last, after);
      m'.Keys == m.Keys && m'[head].prev == m[head].prev && m'[tail].next == m[tail].next
  {
  }

  // ----- Splicing: a segment leaves one place and enters another ----------------------------------

  /** A segment y leaves p + y + z, and q + r is either what it leaves behind or another list. */
  predicate SpliceParts(m: map<Elem, Links>, p: seq<Elem>, y: seq<Elem>, z: seq<Elem>, q: seq<Elem>, r: seq<Elem>,
                        same: bool)
  {
    && p != [] && y != [] && z != [] && q != [] && r != []
    && ListChain(m, p + y + z)
    && (same ==> q + r == p + z)
    && (!same ==> ListChain(m, q + r) && Apart(q + r, p + y + z))
  }

  lemma SpliceUnlinks(m: map<Elem, Links>, p: seq<Elem>, y: seq<Elem>, z: seq<Elem>, q: seq<Elem>, r: seq<Elem>,
                      same: bool)
    requires SpliceParts(m, p, y, z, q, r, same)
    ensures Last(p) in m && z[0] in m && Apart(q, y) && Apart(y, r)
    ensures var m' := Unlinked(m, Last(p), z[0]);
      ListChain(m', p + z) && ListChain(m', q + r) && Chain(m', y) && r[0] in m' && m'[r[0]].prev == Last(q)
  {
    hide ListChain;
    hide Apart;
    UnlinkedIsList(m, p, y, z);
    var m' := Unlinked(m, Last(p), z[0]);
    if same {
      ApartConcat(p, z, y);
    } else {
      ApartSplit(q + r, p + y, z);
      ApartSplit(q + r, p, y);
      UnlinkedElsewhere(m, q + r, Last(p), z[0]);
    }
    ApartOfConcat(q, r, y);
    MiddleLink(m', q, r);
  }

  lemma SpliceLinks(m: map<Elem, Links>, p: seq<Elem>, y: seq<Elem>, z: seq<Elem>, q: seq<Elem>, r: seq<Elem>,
                    same: bool)
    requires SpliceParts(m, p, y, z, q, r, same)
    ensures Last(p) in m && z[0] in m
    ensures var m' := Unlinked(m, Last(p), z[0]);
      && Last(q) in m' && r[0] in m' && y[0] in m' && Last(y) in m'
      && var m'' := Linked(m', Last(q), y[0], Last(y), r[0]);
      ListChain(m'', q + y + r) && (!same ==> ListChain(m'', p + z))
  {
    hide ListChain;
    hide Apart;
    SpliceUnlinks(m, p, y, z, q, r, same);
    var m' := Unlinked(m, Last(p), z[0]);
    LinkedIsList(m', q, y, r);
    if !same {
      UnlinkedIsList(m, p, y, z);
      ApartSplit(q + r, p + y, z);
      ApartSplit(q + r, p, y);
      ApartFour(q, r, p, z);
      ApartConcat(p, z, y);
      LinkedElsewhere(m', p + z, Last(q), y[0], Last(y), r[0]);
    }
  }

  lemma MiddleLink(m: map<Elem, Links>, q: seq<Elem>, r: seq<Elem>)
    requires q != [] && r != [] && ListChain(m, q + r)
    ensures r[0] in m && m[r[0]].prev == Last(q)
  {
    ChainSplit(m, q, r);
  }

  lemma ApartConcat(a: seq<Elem>, b: seq<Elem>, c: seq<Elem>)
    requires Apart(a, c) && Apart(c, b)
    ensures Apart(a + b, c) && Apart(c, a + b)
  {
  }

  lemma ApartOfConcat(a: seq<Elem>, b: seq<Elem>, c: seq<Elem>)
    requires Apart(a + b, c)
    ensures Apart(a, c) && Apart(c, b)
  {
    assert forall i :: 0 <= i < |a| ==> (a + b)[i] == a[i];
    assert forall i :: 0 <= i < |b| ==> (a + b)[|a| + i] == b[i];
  }

  lemma ApartSplit(c: seq<Elem>, a: seq<Elem>, b: seq<Elem>)
    requires Apart(c, a + b)
    ensures Apart(c, a) && Apart(c, b)
  {
    assert forall i :: 0 <= i < |a| ==> (a + b)[i] == a[i];
    assert forall i :: 0 <= i < |b| ==> (a + b)[|a| + i] == b[i];
  }

  lemma ApartFour(q: seq<Elem>, r: seq<Elem>, p: seq<Elem>, z: seq<Elem>)
    requires q != [] && r != [] && Apart(q + r, p) && Apart(q + r, z)
    ensures Last(q) !in p + z && r[0] !in p + z
  {
    assert (q + r)[|q| - 1] == Last(q) && (q + r)[|q|] == r[0];
  }

  lemma UnlinkedElsewhere(m: map<Elem, Links>, s: seq<Elem>, before: Elem, after: Elem)
    requires before in m && after in m && before !in s && after !in s
    requires ListChain(m, s)
    ensures ListChain(Unlinked(m, before, after), s)
  {
    hide ListChain;
    InChain(m, s);
    ListChainSame(m, Unlinked(m, before, after), s);
  }

  lemma LinkedElsewhere(m: map<Elem, Links>, s: seq<Elem>, before: Elem, first: Elem, last: Elem, after: Elem)
    requires {before, first, last, after} <= m.Keys
    requires before !in s && first !in s && last !in s && after !in s
    requires ListChain(m, s)
    ensures ListChain(Linked(m, before, first, last, after), s)
  {
    hide ListChain;
    InChain(m, s);
    ListChainSame(m, Linked(m, before, first, last, after), s);
  }

  lemma InChain(m: map<Elem, Links>, s: seq<Elem>)
    requires ListChain(m, s)
    ensures forall e | e in s :: e in m
  {
  }

  // ----- Splicing a segment into itself -----------------------------------------------------------

  /** Following next from e through the elements of y comes back to where it started. */
  predicate Ring(m: map<Elem, Links>, y: seq<Elem>) {
    && y != []
    && (forall i :: 0 <= i < |y| ==> y[i] in m)
    && (forall i :: 0 <= i < |y| - 1 ==> m[y[i]].next == y[i + 1])
    && m[Last(y)].next == y[0]
  }

  lemma {:induction false} RingPositions(m: map<Elem, Links>, y: seq<Elem>, s: seq<Elem>, i: nat, k: nat)
    requires Ring(m, y) && ListChain(m, s) && i < |s| && s[i] == y[0] && k <= |y|
    ensures i + k < |s| && s[i + k] == if k < |y| then y[k] else y[0]
  {
    if k > 0 {
      RingPositions(m, y, s, i, k - 1);
      NextInRing(m, y, k);
      NextInList(m, s, i + k - 1);
    }
  }

  lemma NextInRing(m: map<Elem, Links>, y: seq<Elem>, k: nat)
    requires Ring(m, y) && 0 < k <= |y|
    ensures m[y[k - 1]].next == if k < |y| then y[k] else y[0]
  {
  }

  lemma NextInList(m: map<Elem, Links>, s: seq<Elem>, j: nat)
    requires ListChain(m, s) && j < |s| && m[s[j]].next != null
    ensures j + 1 < |s| && s[j + 1] == m[s[j]].next
  {
  }

  lemma RingIsNoList(m: map<Elem, Links>, y: seq<Elem>, s: seq<Elem>)
    requires Ring(m, y) && y[0] in s
    ensures !ListChain(m, s)
  {
    var i :| 0 <= i < |s| && s[i] == y[0];
    if ListChain(m, s) {
      RingPositions(m, y, s, i, |y|);
    }
  }

  /** list_splice with before inside the segment that it moves: the links no longer make up a list,
      whatever the order, that holds the segment. */
  lemma SpliceIntoItselfBreaks(m: map<Elem, Links>, p: seq<Elem>, y: seq<Elem>, z: seq<Elem>, k: nat, s: seq<Elem>)
    requires p != [] && y != [] && z != [] && ListChain(m, p + y + z) && k < |y|
    requires y[k] in s
    ensures Last(p) in m && z[0] in m && y[k] in m && y[0] in m && Last(y) in m
    ensures var m' := Unlinked(m, Last(p), z[0]);
      var before := if k == 0 then Last(p) else y[k - 1];
      m'[y[k]].prev == before && before in m' && !ListChain(Linked(m', before, y[0], Last(y), y[k]), s)
  {
    UnlinkedIsChain(m, p, y, z);
    var m' := Unlinked(m, Last(p), z[0]);
    PrevInSegment(m, p, y, z, k);
    var before := if k == 0 then Last(p) else y[k - 1];
    var m'' := Linked(m', before, y[0], Last(y), y[k]);
    var ring := y[k..];
    assert m''[Last(y)].next == y[k];
    forall i | 0 <= i < |ring| - 1
      ensures m''[ring[i]].next == ring[i + 1]
    {
      assert ring[i] == y[k + i] && m'[y[k + i]].next == y[k + i + 1];
    }
    RingIsNoList(m'', ring, s);
  }

  lemma PrevInSegment(m: map<Elem, Links>, p: seq<Elem>, y: seq<Elem>, z: seq<Elem>, k: nat)
    requires p != [] && y != [] && z != [] && Chain(m, p + y + z) && k < |y|
    ensures y[k] in m && m[y[k]].prev == if k == 0 then Last(p) else y[k - 1]
    ensures Last(p) in m && Last(p) !in y
  {
    Parts(m, p, y, z);
    NotIn(p, y, Last(p));
  }

  // ----- The assignments --------------------------------------------------------------------------

  /** The assignments that list_remove and list_splice start with: close the gap around the segment
      from first to last. */
  method LinkOut(first: Elem, last: Elem, ghost nodes: set<Elem>)
    requires {first, last} <= nodes && first.prev in nodes && last.next in nodes
    modifies first.prev, last.next
    ensures LinksOf(nodes) == Unlinked(old(LinksOf(nodes)), old(first.prev), old(last.next))
  {
    first.prev.next := last.next;
    last.next.prev := first.prev;
  }

  /** The assignments that list_insert consists of and list_splice ends with: put the segment from
      first to last just before an element. */
  method LinkIn(before: Elem, first: Elem, last: Elem, ghost nodes: set<Elem>)
    requires {before, first, last} <= nodes && before.prev in nodes
    requires first != before && last != before && before.prev != first && before.prev != last
    modifies first, last, before, before.prev
    ensures LinksOf(nodes) == Linked(old(LinksOf(nodes)), old(before.prev), first, last, before)
  {
    first.prev := before.prev;
    last.next := before;
    before.prev.next := first;
    before.prev := last;
  }

  // ----- Reversal ---------------------------------------------------------------------------------

  function Backwards<E>(s: seq<E>): (r: seq<E>)
    ensures |r| == |s| && forall i :: 0 <= i < |s| ==> r[i] == s[|s| - 1 - i]
  {
    seq(|s|, i requires 0 <= i < |s| => s[|s| - 1 - i])
  }

  /** list_reverse on its way: the links of the elements up to position k are swapped. */
  predicate Reversing(m: map<Elem, Links>, s: seq<Elem>, k: nat) {
    && k + 2 <= |s|
    && Distinct(s)
    && (forall i :: 0 <= i < |s| ==> s[i] in m)
    && (forall i :: 1 <= i < |s| - 1 ==>
          m[s[i]] == if i <= k then Links(s[i + 1], s[i - 1]) else Links(s[i - 1], s[i + 1]))
    && m[s[0]] == Links(null, s[1])
    && m[Last(s)] == Links(s[|s| - 2], null)
  }

  lemma ReversingStarts(m: map<Elem, Links>, s: seq<Elem>)
    requires ListChain(m, s) && |s| >= 2
    ensures Reversing(m, s, 0)
  {
  }

  lemma ReversingStep(m: map<Elem, Links>, s: seq<Elem>, k: nat)
    requires Reversing(m, s, k) && k + 2 < |s|
    ensures m[s[k + 1]] == Links(s[k], s[k + 2])
    ensures Reversing(m[s[k + 1] := Links(s[k + 2], s[k])], s, k + 1)
  {
    DistinctFrom(s, k + 1);
    hide Distinct;
    ReversingOne(m, m[s[k + 1] := Links(s[k + 2], s[k])], s, k);
  }

  lemma ReversingOne(m: map<Elem, Links>, m': map<Elem, Links>, s: seq<Elem>, k: nat)
    requires Reversing(m, s, k) && k + 2 < |s| && m'.Keys == m.Keys
    requires m'[s[k + 1]] == Links(s[k + 2], s[k])
    requires forall i :: 0 <= i < |s| && i != k + 1 ==> m'[s[i]] == m[s[i]]
    ensures Reversing(m', s, k + 1)
  {
    hide Distinct;
  }

  lemma DistinctFrom(s: seq<Elem>, k: nat)
    requires Distinct(s) && k < |s|
    ensures forall i :: 0 <= i < |s| && i != k ==> s[i] != s[k]
  {
  }

  /** The last two swaps of list_reverse, given the first and last element after the first swap. */
  function EndsSwapped(m: map<Elem, Links>, head: Elem, tail: Elem, first: Elem, last: Elem): map<Elem, Links>
    requires {head, tail, first, last} <= m.Keys
  {
    var m1 := SetPrev(SetNext(m, head, first), tail, last);
    SetNext(SetPrev(m1, first, m1[last].next), last, m1[first].prev)
  }

  /** After the loop and the last two swaps, the links spell out the list backwards. */
  lemma ReversingEnds(m: map<Elem, Links>, s: seq<Elem>, head: Elem, es: seq<Elem>, tail: Elem)
    requires es != [] && s == [head] + es + [tail] && Reversing(m, s, |es|)
    ensures {head, tail, Last(es), es[0]} <= m.Keys
    ensures ListChain(EndsSwapped(m, head, tail, Last(es), es[0]), [head] + Backwards(es) + [tail])
  {
    var n := |es|;
    assert s[n] == Last(es) && s[1] == es[0] && s[0] == head && s[n + 1] == tail;
    var m' := EndsSwapped(m, head, tail, Last(es), es[0]);
    EndsSwappedAt(m, head, tail, Last(es), es[0]);
    hide EndsSwapped;
    assert m'[head] == Links(null, s[n]) && m'[tail] == Links(s[1], null);
    assert m[s[1]] == Links(s[2], s[0]) && m[s[n]] == Links(s[n + 1], s[n - 1]);
    forall i | 1 <= i <= n
      ensures m'[s[i]] == Links(if i == n then head else s[i + 1], if i == 1 then tail else s[i - 1])
    {
      assert s[i] in m && s[i] != head && s[i] != tail;
      assert (s[i] == s[n] <==> i == n) && (s[i] == s[1] <==> i == 1);
      assert m[s[i]] == Links(s[i + 1], s[i - 1]);
    }
    var all := [head] + Backwards(es) + [tail];
    assert forall i :: 1 <= i <= n ==> all[i] == s[n + 1 - i];
    BackwardsIsChain(m', s, all);
  }

  lemma EndsSwappedAt(m: map<Elem, Links>, head: Elem, tail: Elem, first: Elem, last: Elem)
    requires {head, tail, first, last} <= m.Keys && head != tail && {head, tail} !! {first, last}
    ensures var m' := EndsSwapped(m, head, tail, first, last);
      && m'.Keys == m.Keys
      && forall e | e in m ::
        && m'[e].prev == (if e == first then m[last].next else if e == tail then last else m[e].prev)
        && m'[e].next == (if e == last then m[first].prev else if e == head then first else m[e].next)
  {
  }

  lemma BackwardsIsChain(m: map<Elem, Links>, s: seq<Elem>, all: seq<Elem>)
    requires |s| == |all| >= 3 && Distinct(s) && all[0] == s[0] && Last(all) == Last(s)
    requires forall i :: 0 <= i < |s| ==> s[i] in m
    requires forall i :: 1 <= i < |s| - 1 ==> all[i] == s[|s| - 1 - i]
    requires m[s[0]] == Links(null, s[|s| - 2]) && m[Last(s)] == Links(s[1], null)
    requires forall i :: 1 <= i < |s| - 1 ==>
      m[s[i]] == Links(if i == |s| - 2 then s[0] else s[i + 1], if i == 1 then Last(s) else s[i - 1])
    ensures ListChain(m, all)
  {
    var n := |s| - 2;
    assert all[1] == s[n] && all[n] == s[1];
    forall i | 1 <= i <= n
      ensures all[i] in m && m[all[i]] == Links(all[i - 1], all[i + 1])
    {
      var k := n + 1 - i;
      assert all[i] == s[k] && s[k] in m;
      assert all[i - 1] == if k == n then s[0] else s[k + 1];
      assert all[i + 1] == if k == 1 then Last(s) else s[k - 1];
    }
    forall i | 0 <= i <= n
      ensures m[all[i]].next == all[i + 1] && m[all[i + 1]].prev == all[i]
    {
      assert i > 0 ==> m[all[i]] == Links(all[i - 1], all[i + 1]);
      assert i < n ==> m[all[i + 1]] == Links(all[i + 1 - 1], all[i + 1 + 1]);
    }
    forall i | 0 < i < |all|
      ensures m[all[i]].prev == all[i - 1]
    {
      assert m[all[i - 1 + 1]].prev == all[i - 1];
    }
    forall i, j | 0 <= i < j < |all|
      ensures all[i] != all[j]
    {
      var i', j' := if i == 0 || i > n then i else n + 1 - i, if j == 0 || j > n then j else n + 1 - j;
      assert all[i] == s[i'] && all[j] == s[j'];
    }
  }

  lemma BackwardsTwice<E>(s: seq<E>)
    ensures Backwards(Backwards(s)) == s
  {
  }

  method SwapLinks(e: Elem, ghost nodes: set<Elem>)
    requires e in nodes
    modifies e
    ensures LinksOf(nodes) == old(LinksOf(nodes))[e := Links(old(e.next), old(e.prev))]
    ensures e.prev == old(e.next) && e.next == old(e.prev)
  {
    e.prev, e.next := e.next, e.prev;
  }

  method SwapEnds(head: Elem, tail: Elem, ghost nodes: set<Elem>)
    requires head != tail && {head, tail} <= nodes && {head.next, tail.prev} <= nodes
    requires head.next !in {head, tail} && tail.prev !in {head, tail}
    modifies head, tail, head.next, tail.prev
    ensures LinksOf(nodes) == EndsSwapped(old(LinksOf(nodes)), head, tail, old(tail.prev), old(head.next))
  {
    head.next, tail.prev := tail.prev, head.next;
    head.next.prev, tail.prev.next := tail.prev.next, head.next.prev;
  }
}
