/** What the natural merge sort of lib/kernel/list.c computes, as functions on sequences, and why
    it is a stable sort that terminates. */
module ListSort {

  /** What list_less_func must be for sorting to make sense: a strict weak order. */
  ghost predicate StrictWeakOrder<E>(less: (E, E) -> bool, dom: set<E>) {
    && (forall x, y | x in dom && y in dom :: less(x, y) ==> !less(y, x))
    && (forall x, y, z | x in dom && y in dom && z in dom :: less(x, z) ==> less(x, y) || less(y, z))
  }

  ghost predicate Within<E>(s: seq<E>, dom: set<E>) {
    forall i :: 0 <= i < |s| ==> s[i] in dom
  }

  ghost predicate Sorted<E>(less: (E, E) -> bool, s: seq<E>) {
    forall i, j :: 0 <= i < j < |s| ==> !less(s[j], s[i])
  }

  /** No element is less than the one just before it: what is_sorted checks. */
  predicate Ascending<E>(less: (E, E) -> bool, s: seq<E>) {
    forall i {:trigger s[i]} :: 0 < i < |s| ==> !less(s[i], s[i - 1])
  }

  lemma {:induction false} AscendingIsSorted<E>(less: (E, E) -> bool, dom: set<E>, s: seq<E>)
    requires Within(s, dom)
    requires StrictWeakOrder(less, dom)
    ensures Ascending(less, s) <==> Sorted(less, s)
  {
    if Ascending(less, s) {
      forall i, j | 0 <= i < j < |s|
        ensures !less(s[j], s[i])
      {
        AscendingPair(less, dom, s, i, j);
      }
    }
    if Sorted(less, s) {
      forall i {:trigger s[i]} | 0 < i < |s|
        ensures !less(s[i], s[i - 1])
      {
      }
    }
  }

  lemma {:induction false} AscendingPair<E>(less: (E, E) -> bool, dom: set<E>, s: seq<E>, i: nat, j: nat)
    requires Within(s, dom)
    requires StrictWeakOrder(less, dom) && Ascending(less, s) && i < j < |s|
    ensures !less(s[j], s[i])
  {
    if i + 1 < j {
      AscendingPair(less, dom, s, i, j - 1);
      assert !less(s[j], s[j - 1]);
    }
  }

  // ----- Stability --------------------------------------------------------------------------------

  predicate Equivalent<E>(less: (E, E) -> bool, x: E, y: E) {
    !less(x, y) && !less(y, x)
  }

  /** The elements of s that are equivalent to x, in the order in which s has them. */
  function Class<E>(less: (E, E) -> bool, s: seq<E>, x: E): seq<E> {
    if s == [] then []
    else (if Equivalent(less, s[0], x) then [s[0]] else []) + Class(less, s[1..], x)
  }

  /** t has the elements of s, and equivalent elements are in the same order in both. */
  ghost predicate StablePermutation<E>(less: (E, E) -> bool, s: seq<E>, t: seq<E>) {
    multiset(s) == multiset(t) && forall x | x in s :: Class(less, s, x) == Class(less, t, x)
  }

  lemma {:induction false} ClassConcat<E>(less: (E, E) -> bool, a: seq<E>, b: seq<E>, x: E)
    ensures Class(less, a + b, x) == Class(less, a, x) + Class(less, b, x)
  {
    if a == [] {
      assert a + b == b;
    } else {
      hide Class;
      hide Equivalent;
      var t := a[1..];
      ClassConcat(less, t, b, x);
      assert a + b == [a[0]] + (t + b);
      ClassHead(less, a, t + b, x);
      ConcatAssociative(if Equivalent(less, a[0], x) then [a[0]] else [], Class(less, t, x), Class(less, b, x));
    }
  }

  lemma ConcatAssociative<E>(a: seq<E>, b: seq<E>, c: seq<E>)
    ensures (a + b) + c == a + (b + c)
  {
  }

  lemma {:induction false} ClassEmpty<E>(less: (E, E) -> bool, s: seq<E>, x: E)
    requires forall y :: y in s ==> !Equivalent(less, y, x)
    ensures Class(less, s, x) == []
  {
    if s != [] {
      ClassEmpty(less, s[1..], x);
    }
  }

  lemma {:induction false} ClassMember<E>(less: (E, E) -> bool, s: seq<E>, x: E, y: E)
    ensures y in Class(less, s, x) <==> y in s && Equivalent(less, y, x)
  {
    if s != [] {
      ClassMember(less, s[1..], x, y);
      assert s == [s[0]] + s[1..];
    }
  }

  /** Sorting stably determines the result: two sorted sequences with the same classes are equal. */
  lemma {:induction false} StableSortUnique<E>(less: (E, E) -> bool, dom: set<E>, s: seq<E>, t: seq<E>)
    requires Within(s, dom) && Within(t, dom)
    requires StrictWeakOrder(less, dom) && Sorted(less, s) && Sorted(less, t)
    requires forall x | x in dom :: Class(less, s, x) == Class(less, t, x)
    ensures s == t
  {
    if s == [] || t == [] {
      if s != [] {
        ClassMember(less, s, s[0], s[0]);
      }
      if t != [] {
        ClassMember(less, t, t[0], t[0]);
      }
    } else {
      SameFirst(less, dom, s, t);
      forall z | z in dom
        ensures Class(less, s[1..], z) == Class(less, t[1..], z)
      {
        SameTail(less, s, t, z);
      }
      StableSortUnique(less, dom, s[1..], t[1..]);
    }
  }

  lemma SameFirst<E>(less: (E, E) -> bool, dom: set<E>, s: seq<E>, t: seq<E>)
    requires s != [] && t != [] && Within(s, dom) && Within(t, dom)
    requires StrictWeakOrder(less, dom) && Sorted(less, s) && Sorted(less, t)
    requires forall x | x in dom :: Class(less, s, x) == Class(less, t, x)
    ensures s[0] == t[0]
  {
    var x, y := s[0], t[0];
    ClassMember(less, s, x, x);
    ClassMember(less, t, x, x);
    ClassMember(less, s, y, y);
    ClassMember(less, t, y, y);
    assert Equivalent(less, x, y);
    assert Class(less, s, x)[0] == x && Class(less, t, x)[0] == y;
  }

  lemma SameTail<E>(less: (E, E) -> bool, s: seq<E>, t: seq<E>, z: E)
    requires s != [] && t != [] && s[0] == t[0] && Class(less, s, z) == Class(less, t, z)
    ensures Class(less, s[1..], z) == Class(less, t[1..], z)
  {
    if Equivalent(less, s[0], z) {
      assert Class(less, s, z)[1..] == Class(less, s[1..], z);
      assert Class(less, t, z)[1..] == Class(less, t[1..], z);
    } else {
      assert Class(less, s, z) == Class(less, s[1..], z);
      assert Class(less, t, z) == Class(less, t[1..], z);
    }
  }

  // ----- Merging ----------------------------------------------------------------------------------

  /** The merge of two sorted sequences that prefers the first on ties. */
  function Merge<E>(less: (E, E) -> bool, a: seq<E>, b: seq<E>): (m: seq<E>)
    decreases |a| + |b|
  {
    if a == [] || b == [] then a + b
    else if !less(b[0], a[0]) then [a[0]] + Merge(less, a[1..], b)
    else [b[0]] + Merge(less, a, b[1..])
  }

  lemma {:induction false} MergeKeepsElements<E>(less: (E, E) -> bool, a: seq<E>, b: seq<E>)
    ensures multiset(Merge(less, a, b)) == multiset(a) + multiset(b)
    ensures |Merge(less, a, b)| == |a| + |b|
    decreases |a| + |b|
  {
    if a == [] || b == [] {
    } else if !less(b[0], a[0]) {
      hide Merge;
      MergeStep(less, a, b);
      MergeKeepsElements(less, a[1..], b);
      ConsCount(a, multiset(b), Merge(less, a[1..], b));
    } else {
      hide Merge;
      MergeStep(less, a, b);
      MergeKeepsElements(less, a, b[1..]);
      ConsCount(b, multiset(a), Merge(less, a, b[1..]));
    }
  }

  lemma MergeStep<E>(less: (E, E) -> bool, a: seq<E>, b: seq<E>)
    requires a != [] && b != []
    ensures Merge(less, a, b)
         == if !less(b[0], a[0]) then [a[0]] + Merge(less, a[1..], b) else [b[0]] + Merge(less, a, b[1..])
  {
  }

  lemma ConsCount<E>(s: seq<E>, other: multiset<E>, m: seq<E>)
    requires s != [] && multiset(m) == multiset(s[1..]) + other
    ensures multiset([s[0]] + m) == multiset(s) + other
  {
    assert s == [s[0]] + s[1..];
  }

  lemma MergeMember<E>(less: (E, E) -> bool, a: seq<E>, b: seq<E>, y: E)
    requires y in Merge(less, a, b)
    ensures y in a || y in b
  {
    MergeKeepsElements(less, a, b);
    assert y in multiset(Merge(less, a, b));
  }

  lemma {:induction false} MergeSorts<E>(less: (E, E) -> bool, dom: set<E>, a: seq<E>, b: seq<E>)
    requires Within(a, dom) && Within(b, dom)
    requires StrictWeakOrder(less, dom) && Sorted(less, a) && Sorted(less, b)
    ensures Sorted(less, Merge(less, a, b))
    decreases |a| + |b|
  {
    if a != [] && b != [] {
      var front := !less(b[0], a[0]);
      var x := if front then a[0] else b[0];
      var rest := if front then Merge(less, a[1..], b) else Merge(less, a, b[1..]);
      if front {
        MergeSorts(less, dom, a[1..], b);
      } else {
        MergeSorts(less, dom, a, b[1..]);
      }
      forall y | y in rest
        ensures !less(y, x)
      {
        if front {
          MergeMember(less, a[1..], b, y);
        } else {
          MergeMember(less, a, b[1..], y);
        }
        NotLessThanHeads(less, dom, a, b, x, y);
      }
      ConsSorted(less, x, rest);
    }
  }

  lemma NotLessThanHeads<E>(less: (E, E) -> bool, dom: set<E>, a: seq<E>, b: seq<E>, x: E, y: E)
    requires Within(a, dom) && Within(b, dom)
    requires StrictWeakOrder(less, dom) && Sorted(less, a) && Sorted(less, b) && a != [] && b != []
    requires x == if !less(b[0], a[0]) then a[0] else b[0]
    requires y in a || y in b
    ensures !less(y, x)
  {
    assert y in a ==> !less(y, a[0]);
    assert y in b ==> !less(y, b[0]);
  }

  lemma ConsSorted<E>(less: (E, E) -> bool, x: E, s: seq<E>)
    requires Sorted(less, s) && forall y :: y in s ==> !less(y, x)
    ensures Sorted(less, [x] + s)
  {
  }

  lemma {:induction false} MergeIsStable<E>(less: (E, E) -> bool, dom: set<E>, a: seq<E>, b: seq<E>, x: E)
    requires Within(a, dom) && Within(b, dom) && x in dom
    requires StrictWeakOrder(less, dom) && Sorted(less, a) && Sorted(less, b)
    ensures Class(less, Merge(less, a, b), x) == Class(less, a, x) + Class(less, b, x)
    decreases |a| + |b|
  {
    hide Class;
    hide Equivalent;
    if a == [] || b == [] {
      ClassConcat(less, a, b, x);
    } else {
      hide Merge;
      MergeStep(less, a, b);
      if !less(b[0], a[0]) {
        MergeIsStable(less, dom, a[1..], b, x);
        ClassHead(less, a, Merge(less, a[1..], b), x);
      } else {
        MergeIsStable(less, dom, a, b[1..], x);
        ClassHead(less, b, Merge(less, a, b[1..]), x);
        if Equivalent(less, b[0], x) {
          SmallerThanAll(less, dom, a, b[0], x);
        }
      }
    }
  }

  lemma ClassHead<E>(less: (E, E) -> bool, s: seq<E>, m: seq<E>, x: E)
    requires s != []
    ensures Class(less, [s[0]] + m, x) == (if Equivalent(less, s[0], x) then [s[0]] else []) + Class(less, m, x)
    ensures Class(less, s, x) == (if Equivalent(less, s[0], x) then [s[0]] else []) + Class(less, s[1..], x)
  {
    assert ([s[0]] + m)[1..] == m;
  }

  /** An element that is less than the first of a sorted sequence has no equivalent in it. */
  lemma SmallerThanAll<E>(less: (E, E) -> bool, dom: set<E>, a: seq<E>, y: E, x: E)
    requires StrictWeakOrder(less, dom) && Within(a, dom) && Sorted(less, a) && x in dom && y in dom
    requires a != [] && less(y, a[0]) && Equivalent(less, y, x)
    ensures Class(less, a, x) == []
  {
    forall z | z in a
      ensures !Equivalent(less, z, x)
    {
      assert !less(z, a[0]);
      assert less(y, z);
    }
    ClassEmpty(less, a, x);
  }

  // ----- Runs -------------------------------------------------------------------------------------

  /** The end of the run that contains position i: the next position whose element is less than
      its predecessor. */
  function RunEnd<E>(less: (E, E) -> bool, s: seq<E>, i: nat): (j: nat)
    requires i < |s|
    ensures i < j <= |s|
    ensures forall k {:trigger s[k]} :: i < k < j ==> !less(s[k], s[k - 1])
    ensures j < |s| ==> less(s[j], s[j - 1])
    decreases |s| - i
  {
    if i + 1 == |s| || less(s[i + 1], s[i]) then i + 1 else RunEnd(less, s, i + 1)
  }

  /** The number of maximal runs. */
  function Runs<E>(less: (E, E) -> bool, s: seq<E>): nat {
    if s == [] then 0
    else if |s| == 1 then 1
    else Runs(less, s[1..]) + if less(s[1], s[0]) then 1 else 0
  }

  /** One pass of the sort: merge the runs two by two. */
  function Pass<E>(less: (E, E) -> bool, s: seq<E>): seq<E> {
    if s == [] then []
    else
      var e1 := RunEnd(less, s, 0);
      if e1 == |s| then s
      else
        var e2 := RunEnd(less, s, e1);
        Merge(less, s[..e1], s[e1..e2]) + Pass(less, s[e2..])
  }

  /** The number of runs that a pass writes. */
  function PassRuns<E>(less: (E, E) -> bool, s: seq<E>): nat {
    if s == [] then 0
    else
      var e1 := RunEnd(less, s, 0);
      if e1 == |s| then 1
      else
        var e2 := RunEnd(less, s, e1);
        1 + PassRuns(less, s[e2..])
  }

  lemma {:induction false} RunsAfterRun<E>(less: (E, E) -> bool, s: seq<E>)
    requires s != []
    ensures var e := RunEnd(less, s, 0); Runs(less, s) == 1 + Runs(less, s[e..])
  {
    if |s| > 1 {
      RunsAfterRun(less, s[1..]);
      if !less(s[1], s[0]) {
        RunEndShift(less, s, 1);
        var e := RunEnd(less, s, 0);
        assert s[1..][e - 1..] == s[e..];
      }
    }
  }

  lemma {:induction false} RunEndShift<E>(less: (E, E) -> bool, s: seq<E>, i: nat)
    requires 0 < i < |s|
    ensures RunEnd(less, s, i) == 1 + RunEnd(less, s[1..], i - 1)
    decreases |s| - i
  {
    if i + 1 < |s| && !less(s[i + 1], s[i]) {
      RunEndShift(less, s, i + 1);
    }
  }

  lemma {:induction false} RunEndDrop<E>(less: (E, E) -> bool, s: seq<E>, k: nat, i: nat)
    requires k <= i < |s|
    ensures RunEnd(less, s, i) == k + RunEnd(less, s[k..], i - k)
    decreases |s| - i
  {
    var t := s[k..];
    assert t[i - k] == s[i];
    if i + 1 < |s| {
      assert t[i - k + 1] == s[i + 1];
      RunEndDrop(less, s, k, i + 1);
    }
  }

  /** A pass writes half as many runs as it reads, rounded up. */
  lemma {:induction false} PassHalvesRuns<E>(less: (E, E) -> bool, s: seq<E>)
    ensures PassRuns(less, s) == (Runs(less, s) + 1) / 2
  {
    if s != [] {
      hide Runs;
      var e1 := RunEnd(less, s, 0);
      RunsAfterRun(less, s);
      if e1 < |s| {
        var e2 := RunEnd(less, s, e1);
        SecondRun(less, s, e1);
        PassHalvesRuns(less, s[e2..]);
      } else {
        NoRuns(less, s[e1..]);
      }
    }
  }

  lemma NoRuns<E>(less: (E, E) -> bool, s: seq<E>)
    requires s == []
    ensures Runs(less, s) == 0
  {
  }

  lemma SecondRun<E>(less: (E, E) -> bool, s: seq<E>, e1: nat)
    requires e1 < |s|
    ensures var e2 := RunEnd(less, s, e1); Runs(less, s[e1..]) == 1 + Runs(less, s[e2..])
  {
    hide Runs;
    var e2 := RunEnd(less, s, e1);
    RunEndDrop(less, s, e1, e1);
    RunsAfterRun(less, s[e1..]);
    assert s[e1..][e2 - e1..] == s[e2..];
  }

  lemma {:induction false} RunsConcat<E>(less: (E, E) -> bool, a: seq<E>, b: seq<E>)
    ensures Runs(less, a + b) <= Runs(less, a) + Runs(less, b)
  {
    if a == [] {
      assert a + b == b;
    } else {
      RunsConcat(less, a[1..], b);
      assert (a + b)[1..] == a[1..] + b;
    }
  }

  lemma {:induction false} RunsOfSorted<E>(less: (E, E) -> bool, s: seq<E>)
    requires Sorted(less, s)
    ensures Runs(less, s) <= 1
  {
    if |s| > 1 {
      RunsOfSorted(less, s[1..]);
    }
  }

  lemma {:induction false} OneRunIsAscending<E>(less: (E, E) -> bool, s: seq<E>)
    requires Runs(less, s) <= 1
    ensures Ascending(less, s)
  {
    if |s| > 1 {
      NonemptyHasRun(less, s[1..]);
      OneRunIsAscending(less, s[1..]);
      forall i {:trigger s[i]} | 0 < i < |s|
        ensures !less(s[i], s[i - 1])
      {
        assert i > 1 ==> s[i] == s[1..][i - 1] && s[i - 1] == s[1..][i - 2];
      }
    }
  }

  lemma NonemptyHasRun<E>(less: (E, E) -> bool, s: seq<E>)
    requires s != []
    ensures Runs(less, s) >= 1
  {
  }

  /** A slice that is one run is sorted. */
  lemma RunIsSorted<E>(less: (E, E) -> bool, dom: set<E>, s: seq<E>, i: nat)
    requires Within(s, dom)
    requires StrictWeakOrder(less, dom) && i < |s|
    ensures Sorted(less, s[i..RunEnd(less, s, i)])
  {
    RunIsAscending(less, s, i);
    AscendingIsSorted(less, dom, s[i..RunEnd(less, s, i)]);
  }

  lemma RunIsAscending<E>(less: (E, E) -> bool, s: seq<E>, i: nat)
    requires i < |s|
    ensures Ascending(less, s[i..RunEnd(less, s, i)])
  {
    var j := RunEnd(less, s, i);
    var t := s[i..j];
    forall k {:trigger t[k]} | 0 < k < |t|
      ensures !less(t[k], t[k - 1])
    {
      assert t[k] == s[i + k] && t[k - 1] == s[i + k - 1];
    }
  }

  /** After a pass there are at most half as many runs, rounded up: the sort terminates. */
  lemma {:induction false} PassProgress<E>(less: (E, E) -> bool, dom: set<E>, s: seq<E>)
    requires Within(s, dom)
    requires StrictWeakOrder(less, dom)
    ensures Runs(less, Pass(less, s)) <= PassRuns(less, s)
  {
    if s != [] {
      var e1 := RunEnd(less, s, 0);
      RunIsSorted(less, dom, s, 0);
      if e1 < |s| {
        var e2 := RunEnd(less, s, e1);
        RunIsSorted(less, dom, s, e1);
        PassProgress(less, dom, s[e2..]);
        MergedIsOneRun(less, dom, s[..e1], s[e1..e2], Pass(less, s[e2..]));
      } else {
        assert s[0..e1] == s;
        RunsOfSorted(less, s);
      }
    }
  }

  lemma MergedIsOneRun<E>(less: (E, E) -> bool, dom: set<E>, a: seq<E>, b: seq<E>, rest: seq<E>)
    requires Within(a, dom) && Within(b, dom)
    requires StrictWeakOrder(less, dom) && Sorted(less, a) && Sorted(less, b)
    ensures Runs(less, Merge(less, a, b) + rest) <= 1 + Runs(less, rest)
  {
    hide Merge;
    MergeSorts(less, dom, a, b);
    RunsOfSorted(less, Merge(less, a, b));
    RunsConcat(less, Merge(less, a, b), rest);
  }

  /** A pass that wrote at most one run leaves a sorted list. */
  lemma LastPassSorts<E>(less: (E, E) -> bool, dom: set<E>, s: seq<E>)
    requires Within(s, dom)
    requires StrictWeakOrder(less, dom) && PassRuns(less, s) <= 1
    ensures Sorted(less, Pass(less, s))
  {
    hide Pass;
    hide PassRuns;
    PassProgress(less, dom, s);
    PassKeepsElements(less, s);
    SameElementsWithin(s, Pass(less, s), dom);
    OneRunIsAscending(less, Pass(less, s));
    AscendingIsSorted(less, dom, Pass(less, s));
  }

  lemma SameElementsWithin<E>(s: seq<E>, t: seq<E>, dom: set<E>)
    requires multiset(s) == multiset(t) && Within(s, dom)
    ensures Within(t, dom) && |s| == |t|
  {
    assert |multiset(s)| == |multiset(t)|;
    forall i | 0 <= i < |t|
      ensures t[i] in dom
    {
      assert t[i] in multiset(t);
      assert t[i] in multiset(s);
    }
  }

  lemma {:induction false} PassKeepsElements<E>(less: (E, E) -> bool, s: seq<E>)
    ensures multiset(Pass(less, s)) == multiset(s)
  {
    if s != [] {
      var e1 := RunEnd(less, s, 0);
      if e1 < |s| {
        var e2 := RunEnd(less, s, e1);
        PassKeepsElements(less, s[e2..]);
        ThreeParts(less, s, e1, e2);
      }
    }
  }

  lemma ThreeParts<E>(less: (E, E) -> bool, s: seq<E>, i: nat, j: nat)
    requires i <= j <= |s|
    ensures multiset(Merge(less, s[..i], s[i..j])) + multiset(s[j..]) == multiset(s)
    ensures s == s[..i] + s[i..j] + s[j..]
  {
    hide Merge;
    MergeKeepsElements(less, s[..i], s[i..j]);
    assert s == s[..i] + s[i..j] + s[j..];
  }

  lemma {:induction false} PassIsStable<E>(less: (E, E) -> bool, dom: set<E>, s: seq<E>)
    requires Within(s, dom)
    requires StrictWeakOrder(less, dom)
    ensures StablePermutation(less, s, Pass(less, s))
  {
    hide Pass;
    hide Class;
    PassKeepsElements(less, s);
    forall x | x in s
      ensures Class(less, s, x) == Class(less, Pass(less, s), x)
    {
      PassKeepsClass(less, dom, s, x);
    }
  }

  lemma {:induction false} PassKeepsClass<E>(less: (E, E) -> bool, dom: set<E>, s: seq<E>, x: E)
    requires Within(s, dom) && x in dom
    requires StrictWeakOrder(less, dom)
    ensures Class(less, s, x) == Class(less, Pass(less, s), x)
  {
    hide Merge;
    hide Class;
    if s != [] {
      var e1 := RunEnd(less, s, 0);
      if e1 < |s| {
        var e2 := RunEnd(less, s, e1);
        PassKeepsClass(less, dom, s[e2..], x);
        RunIsSorted(less, dom, s, 0);
        RunIsSorted(less, dom, s, e1);
        ThreeParts(less, s, e1, e2);
        MergedKeepsClass(less, dom, s[..e1], s[e1..e2], s[e2..], Pass(less, s[e2..]), x);
      }
    }
  }

  lemma MergedKeepsClass<E>(less: (E, E) -> bool, dom: set<E>, a: seq<E>, b: seq<E>, c: seq<E>, d: seq<E>, x: E)
    requires Within(a, dom) && Within(b, dom) && x in dom
    requires StrictWeakOrder(less, dom) && Sorted(less, a) && Sorted(less, b)
    requires Class(less, c, x) == Class(less, d, x)
    ensures Class(less, Merge(less, a, b) + d, x) == Class(less, a + b + c, x)
  {
    hide *;
    MergeIsStable(less, dom, a, b, x);
    ClassConcat(less, a + b, c, x);
    ClassConcat(less, a, b, x);
    ClassConcat(less, Merge(less, a, b), d, x);
  }

  lemma StableTransitive<E>(less: (E, E) -> bool, s: seq<E>, t: seq<E>, u: seq<E>)
    requires StablePermutation(less, s, t) && StablePermutation(less, t, u)
    ensures StablePermutation(less, s, u)
  {
    forall x | x in s
      ensures Class(less, s, x) == Class(less, u, x)
    {
      assert x in multiset(s);
      assert x in multiset(t);
    }
  }

  // ----- Steps of the loops -----------------------------------------------------------------------

  /** Positions i to k (exclusive) are known to ascend. */
  ghost predicate AscendsTo<E>(less: (E, E) -> bool, s: seq<E>, i: nat, k: nat) {
    i < k <= |s| && Ascending(less, s[i..k])
  }

  lemma AscendsByOne<E>(less: (E, E) -> bool, s: seq<E>, i: nat)
    requires i < |s|
    ensures AscendsTo(less, s, i, i + 1)
  {
  }

  lemma AscendsFurther<E>(less: (E, E) -> bool, s: seq<E>, i: nat, k: nat)
    requires AscendsTo(less, s, i, k) && k < |s| && !less(s[k], s[k - 1])
    ensures AscendsTo(less, s, i, k + 1)
  {
    var t := s[i..k + 1];
    forall n {:trigger t[n]} | 0 < n < |t|
      ensures !less(t[n], t[n - 1])
    {
      assert n < k - i ==> t[n] == s[i..k][n] && t[n - 1] == s[i..k][n - 1];
    }
  }

  lemma AscendsNoFurther<E>(less: (E, E) -> bool, s: seq<E>, i: nat, k: nat, j: nat)
    requires i < k < j <= |s| && less(s[k], s[k - 1])
    ensures !Ascending(less, s[i..j])
  {
    var t := s[i..j];
    assert t[k - i] == s[k] && t[k - i - 1] == s[k - 1];
  }

  /** A run that ascends to position k and stops there, at j or at a lesser element, ends there. */
  lemma RunStopsHere<E>(less: (E, E) -> bool, s: seq<E>, i: nat, k: nat, j: nat)
    requires AscendsTo(less, s, i, k) && k <= j <= |s| && (k < j ==> less(s[k], s[k - 1]))
    ensures i + RunEnd(less, s[i..j], 0) == k
  {
    var t, u := s[i..j], s[i..k];
    assert forall n :: 0 <= n < |u| ==> t[n] == u[n];
    assert k < j ==> t[k - i] == s[k] && t[k - i - 1] == s[k - 1];
    RunEndIs(less, t, 0, k - i);
  }

  lemma {:induction false} RunEndIs<E>(less: (E, E) -> bool, t: seq<E>, m: nat, e: nat)
    requires m < e <= |t|
    requires forall n {:trigger t[n]} :: m < n < e ==> !less(t[n], t[n - 1])
    requires e < |t| ==> less(t[e], t[e - 1])
    ensures RunEnd(less, t, m) == e
    decreases e - m
  {
    if m + 1 < e {
      assert !less(t[m + 1], t[m]);
      RunEndIs(less, t, m + 1, e);
    }
  }

  /** The elements before i are merged; what is left of the two runs is i to j and j to r. */
  ghost predicate Merging<E>(less: (E, E) -> bool, was: seq<E>, s: seq<E>, p: nat, i: nat, j: nat, r: nat, merged: seq<E>) {
    && p <= i <= j <= r <= |s| == |was|
    && s[..p] == was[..p] && s[r..] == was[r..]
    && s[p..i] + Merge(less, s[i..j], s[j..r]) == merged
  }

  lemma MergingStarts<E>(less: (E, E) -> bool, s: seq<E>, p: nat, q: nat, r: nat)
    requires p <= q <= r <= |s|
    ensures Merging(less, s, s, p, p, q, r, Merge(less, s[p..q], s[q..r]))
  {
    assert s[p..p] == [];
  }

  lemma MergeTakesFirst<E>(less: (E, E) -> bool, was: seq<E>, s: seq<E>, p: nat, i: nat, j: nat, r: nat, merged: seq<E>)
    requires Merging(less, was, s, p, i, j, r, merged) && i < j < r && !less(s[j], s[i])
    ensures Merging(less, was, s, p, i + 1, j, r, merged)
  {
    var a, b := s[i..j], s[j..r];
    assert a[0] == s[i] && b[0] == s[j];
    assert a[1..] == s[i + 1..j];
    hide Merge;
    MergeStep(less, a, b);
    assert s[p..i + 1] == s[p..i] + [s[i]];
    ConcatAssociative(s[p..i], [s[i]], Merge(less, a[1..], b));
  }

  /** Merging takes the first of the second run: that element moves to before the first run. */
  lemma MergeTakesSecond<E>(less: (E, E) -> bool, was: seq<E>, s: seq<E>, s': seq<E>, p: nat, i: nat, j: nat, r: nat,
                            merged: seq<E>)
    requires Merging(less, was, s, p, i, j, r, merged) && i < j < r && less(s[j], s[i])
    requires s' == Moved(s, j, j + 1, i)
    ensures Merging(less, was, s', p, i + 1, j + 1, r, merged)
  {
    var a, b := s[i..j], s[j..r];
    assert a[0] == s[i] && b[0] == s[j];
    MovedBack(s, i, j, p, r);
    assert b[1..] == s[j + 1..r];
    hide Merge;
    hide Moved;
    MergeStep(less, a, b);
    ConcatAssociative(s[p..i], [s[j]], Merge(less, a, b[1..]));
  }

  /** The sequence s with its elements i to j (exclusive) moved to just before position b. */
  function Moved<E>(s: seq<E>, i: nat, j: nat, b: nat): seq<E>
    requires i <= j <= |s| && b <= |s| && (b <= i || j <= b)
  {
    if b <= i then s[..b] + s[i..j] + s[b..i] + s[j..]
    else s[..i] + s[j..b] + s[i..j] + s[b..]
  }

  lemma MovedBack<E>(s: seq<E>, i: nat, j: nat, p: nat, r: nat)
    requires p <= i < j < r <= |s|
    ensures var s' := Moved(s, j, j + 1, i);
      && |s'| == |s| && s'[p..i + 1] == s[p..i] + [s[j]] && s'[i + 1..j + 1] == s[i..j] && s'[j + 1..r] == s[j + 1..r]
      && s'[..p] == s[..p] && s'[r..] == s[r..] && multiset(s') == multiset(s)
  {
    MovedBackAt(s, i, j);
    MovedBackElements(s, i, j);
    hide Moved;
  }

  lemma MovedBackElements<E>(s: seq<E>, i: nat, j: nat)
    requires i < j < |s|
    ensures multiset(Moved(s, j, j + 1, i)) == multiset(s)
  {
    assert s[j..j + 1] == [s[j]];
    assert s == s[..i] + s[i..j] + [s[j]] + s[j + 1..];
  }

  lemma MovedBackAt<E>(s: seq<E>, i: nat, j: nat)
    requires i < j < |s|
    ensures var s' := Moved(s, j, j + 1, i);
      |s'| == |s| && forall k :: 0 <= k < |s| ==>
        s'[k] == if k < i || k > j then s[k] else if k == i then s[j] else s[k - 1]
  {
  }

  lemma MergingEnds<E>(less: (E, E) -> bool, was: seq<E>, s: seq<E>, p: nat, i: nat, j: nat, r: nat, merged: seq<E>)
    requires Merging(less, was, s, p, i, j, r, merged) && (i == j || j == r)
    ensures s == was[..p] + merged + was[r..]
  {
    assert s == s[..p] + s[p..r] + s[r..];
    assert s[i..j] + s[j..r] == s[i..r];
    assert s[p..i] + s[i..r] == s[p..r];
  }

  /** The elements before i have been passed over, with c runs written; the rest is still to do. */
  ghost predicate Passing<E>(less: (E, E) -> bool, was: seq<E>, s: seq<E>, i: nat, c: nat) {
    && i <= |s|
    && s[..i] + Pass(less, s[i..]) == Pass(less, was)
    && c + PassRuns(less, s[i..]) == PassRuns(less, was)
  }

  lemma PassingStarts<E>(less: (E, E) -> bool, s: seq<E>)
    ensures Passing(less, s, s, 0, 0)
  {
    assert s[0..] == s;
    assert s[..0] + Pass(less, s[0..]) == Pass(less, s);
  }

  lemma PassingLastRun<E>(less: (E, E) -> bool, was: seq<E>, s: seq<E>, i: nat, c: nat)
    requires Passing(less, was, s, i, c)
    requires i < |s| ==> i + RunEnd(less, s[i..], 0) == |s|
    ensures s == Pass(less, was)
    ensures (if i < |s| then c + 1 else c) == PassRuns(less, was)
  {
    assert s == s[..i] + s[i..];
  }

  lemma PassingMerged<E>(less: (E, E) -> bool, was: seq<E>, s: seq<E>, i: nat, c: nat, q: nat, r: nat, s': seq<E>)
    requires Passing(less, was, s, i, c) && i < q < r <= |s|
    requires q == i + RunEnd(less, s[i..], 0) && r == q + RunEnd(less, s[q..], 0)
    requires s' == s[..i] + Merge(less, s[i..q], s[q..r]) + s[r..]
    ensures Passing(less, was, s', r, c + 1) && |s'| == |s| && multiset(s') == multiset(s)
  {
    hide *;
    Slices(s, i, q, r);
    PassingUnfold(less, was, s, i, c);
    TwoRuns(less, s, i, q, r);
    MergeKeepsElements(less, s[i..q], s[q..r]);
    Replaced(s[..i], s[i..q], s[q..r], s[r..], Merge(less, s[i..q], s[q..r]));
    PassingFold(less, was, s', s[..i], Merge(less, s[i..q], s[q..r]), s[r..], c + 1);
  }

  lemma TwoRuns<E>(less: (E, E) -> bool, s: seq<E>, i: nat, q: nat, r: nat)
    requires i < q < r <= |s|
    requires q == i + RunEnd(less, s[i..], 0) && r == q + RunEnd(less, s[q..], 0)
    ensures Pass(less, s[i..]) == Merge(less, s[i..q], s[q..r]) + Pass(less, s[r..])
    ensures PassRuns(less, s[i..]) == 1 + PassRuns(less, s[r..])
  {
    hide *;
    Slices(s, i, q, r);
    TwoRunsOf(less, s[i..], q - i, r - i, s[i..q], s[q..r], s[q..], s[r..]);
  }

  lemma TwoRunsOf<E>(less: (E, E) -> bool, s: seq<E>, e1: nat, e2: nat, a: seq<E>, b: seq<E>, from: seq<E>, d: seq<E>)
    requires 0 < e1 < e2 <= |s| && s[..e1] == a && s[e1..e2] == b && s[e1..] == from && s[e2..] == d
    requires e1 == RunEnd(less, s, 0) && e2 == e1 + RunEnd(less, from, 0)
    ensures Pass(less, s) == Merge(less, a, b) + Pass(less, d)
    ensures PassRuns(less, s) == 1 + PassRuns(less, d)
  {
    hide *;
    RunEndDrop(less, s, e1, e1);
    PassOfRuns(less, s, e1, e2);
  }

  lemma PassingUnfold<E>(less: (E, E) -> bool, was: seq<E>, s: seq<E>, i: nat, c: nat)
    requires Passing(less, was, s, i, c)
    ensures i <= |s| && s[..i] + Pass(less, s[i..]) == Pass(less, was) && c + PassRuns(less, s[i..]) == PassRuns(less, was)
  {
  }

  lemma PassingFold<E>(less: (E, E) -> bool, was: seq<E>, s: seq<E>, a: seq<E>, m: seq<E>, d: seq<E>, c: nat)
    requires s == a + m + d && a + (m + Pass(less, d)) == Pass(less, was) && c + PassRuns(less, d) == PassRuns(less, was)
    ensures Passing(less, was, s, |a + m|, c)
  {
    hide Pass;
    hide PassRuns;
    ConcatAssociative(a, m, Pass(less, d));
    assert s[..|a + m|] == a + m && s[|a + m|..] == d;
  }

  lemma Slices<E>(s: seq<E>, i: nat, q: nat, r: nat)
    requires i < q < r <= |s|
    ensures var rest := s[i..];
      rest[q - i..] == s[q..] && rest[..q - i] == s[i..q] && rest[q - i..r - i] == s[q..r] && rest[r - i..] == s[r..]
    ensures s == s[..i] + s[i..q] + s[q..r] + s[r..]
  {
  }

  lemma Replaced<E>(a: seq<E>, x: seq<E>, y: seq<E>, d: seq<E>, m: seq<E>)
    requires |m| == |x| + |y| && multiset(m) == multiset(x) + multiset(y)
    ensures var s, s', r := a + x + y + d, a + m + d, |a| + |x| + |y|;
      |s'| == |s| && multiset(s') == multiset(s) && s'[..r] == a + m && s'[r..] == d
  {
  }

  lemma PassOfRuns<E>(less: (E, E) -> bool, s: seq<E>, e1: nat, e2: nat)
    requires s != [] && e1 == RunEnd(less, s, 0) && e1 < |s| && e2 == RunEnd(less, s, e1)
    ensures Pass(less, s) == Merge(less, s[..e1], s[e1..e2]) + Pass(less, s[e2..])
    ensures PassRuns(less, s) == 1 + PassRuns(less, s[e2..])
  {
  }

  lemma RunsAscend<E>(less: (E, E) -> bool, s: seq<E>, i: nat)
    requires i < |s|
    ensures s[i..] == s[i..|s|]
    ensures Ascending(less, s[i..i + RunEnd(less, s[i..], 0)])
  {
    var t := s[i..];
    RunIsAscending(less, t, 0);
    assert t[0..RunEnd(less, t, 0)] == s[i..i + RunEnd(less, t, 0)];
  }

  /** One pass, seen from outside: the loop measure goes down, stability is kept, and the pass that
      writes at most one run has sorted the list. */
  lemma AfterPass<E>(less: (E, E) -> bool, dom: set<E>, first: seq<E>, s: seq<E>)
    requires StrictWeakOrder(less, dom) && Within(s, dom) && StablePermutation(less, first, s)
    ensures Within(Pass(less, s), dom) && StablePermutation(less, first, Pass(less, s))
    ensures PassRuns(less, s) > 1 ==> Runs(less, Pass(less, s)) < Runs(less, s)
    ensures PassRuns(less, s) <= 1 ==> Runs(less, Pass(less, s)) <= Runs(less, s) && Sorted(less, Pass(less, s))
  {
    hide *;
    PassIsStable(less, dom, s);
    StableTransitive(less, first, s, Pass(less, s));
    PassKeepsElements(less, s);
    SameElementsWithin(s, Pass(less, s), dom);
    PassHalvesRuns(less, s);
    PassProgress(less, dom, s);
    if PassRuns(less, s) <= 1 {
      LastPassSorts(less, dom, s);
    }
  }

  lemma StableReflexive<E>(less: (E, E) -> bool, s: seq<E>)
    ensures StablePermutation(less, s, s)
  {
  }

  /** Walking over the elements that are not greater than e is the start of merging [e] in. */
  lemma {:induction false} MergeOneAt<E>(less: (E, E) -> bool, s: seq<E>, e: E, k: nat)
    requires k <= |s| && (forall i :: 0 <= i < k ==> !less(e, s[i])) && (k < |s| ==> less(e, s[k]))
    ensures Merge(less, s, [e]) == s[..k] + [e] + s[k..]
  {
    if k == 0 {
      if s != [] {
        MergeStep(less, s, [e]);
        assert [e][1..] == [];
      }
    } else {
      MergeOneAt(less, s[1..], e, k - 1);
      MergeStep(less, s, [e]);
      hide Merge;
      assert s[1..][..k - 1] == s[1..k] && s[1..][k - 1..] == s[k..];
      assert [s[0]] + s[1..k] == s[..k];
      ConcatAssociative([s[0]], s[1..k] + [e], s[k..]);
      ConcatAssociative([s[0]], s[1..k], [e]);
    }
  }
}
