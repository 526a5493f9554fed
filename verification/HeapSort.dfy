/** The C library's sort and binary search (lib/stdlib.c). Elements are values: that do_swap exchanges
    them byte by byte is not modelled. Heap positions count from 1, as in the source. */
module HeapSort {
  import opened Wrappers

  type Compare<!T> = (T, T) -> int

  /** What the comparison function has to be: signs agree when the arguments are exchanged, and "not
      greater" is transitive. Different elements may compare equal. */
  ghost predicate TotalPreorder<T(!new)>(cmp: Compare<T>) {
    && (forall x, y :: cmp(x, y) < 0 <==> cmp(y, x) > 0)
    && (forall x, y, z :: cmp(x, y) <= 0 && cmp(y, z) <= 0 ==> cmp(x, z) <= 0)
  }

  lemma Total<T(!new)>(cmp: Compare<T>, x: T, y: T)
    requires TotalPreorder(cmp)
    ensures cmp(x, y) <= 0 || cmp(y, x) <= 0
    ensures cmp(x, x) == 0
    ensures cmp(x, y) > 0 ==> cmp(y, x) < 0
  {
    assert cmp(x, x) < 0 <==> cmp(x, x) > 0;
    assert cmp(y, x) < 0 <==> cmp(x, y) > 0;
  }

  lemma Transitive<T(!new)>(cmp: Compare<T>, x: T, y: T, z: T)
    requires TotalPreorder(cmp)
    ensures cmp(x, y) <= 0 && cmp(y, z) <= 0 ==> cmp(x, z) <= 0
  {
  }

  ghost predicate Sorted<T(!new)>(cmp: Compare<T>, s: seq<T>) {
    forall x, y | 0 <= x <= y < |s| :: cmp(s[x], s[y]) <= 0
  }

  /** The element at a 1-based position. */
  function At<T>(s: seq<T>, i: nat): T
    requires 1 <= i <= |s|
  {
    s[i - 1]
  }

  function Swapped<T>(s: seq<T>, i: nat, j: nat): (r: seq<T>)
    requires 1 <= i <= |s| && 1 <= j <= |s|
    ensures |r| == |s|
    ensures At(r, i) == At(s, j) && At(r, j) == At(s, i)
    ensures forall k | 1 <= k <= |s| && k != i && k != j :: At(r, k) == At(s, k)
  {
    s[i - 1 := s[j - 1]][j - 1 := s[i - 1]]
  }

  lemma SwapKeepsElements<T>(s: seq<T>, i: nat, j: nat, cnt: nat)
    requires 1 <= i <= cnt <= |s| && 1 <= j <= cnt
    ensures multiset(Swapped(s, i, j)[..cnt]) == multiset(s[..cnt])
    ensures Swapped(s, i, j)[cnt..] == s[cnt..]
  {
    var r := Swapped(s, i, j);
    assert r[..cnt] == s[..cnt][i - 1 := s[j - 1]][j - 1 := s[i - 1]];
  }

  /** The element at position j is not greater than its parent. */
  ghost predicate Below<T>(cmp: Compare<T>, s: seq<T>, j: nat)
    requires 2 <= j <= |s|
  {
    cmp(At(s, j), At(s, j / 2)) <= 0
  }

  /** The first cnt elements are a heap, apart from the positions before lo. */
  ghost predicate HeapFrom<T>(cmp: Compare<T>, s: seq<T>, lo: nat, cnt: nat)
    requires 1 <= lo && cnt <= |s|
  {
    forall j | 2 * lo <= j <= cnt :: Below(cmp, s, j)
  }

  /** A heap from lo on except that the element at i may be smaller than its children, which are not
      greater than the parent of i. */
  ghost predicate Sifting<T>(cmp: Compare<T>, s: seq<T>, lo: nat, i: nat, cnt: nat)
    requires 1 <= lo <= i <= cnt <= |s|
  {
    && (forall j | 2 * lo <= j <= cnt && j / 2 != i :: Below(cmp, s, j))
    && (i / 2 >= lo ==> forall j | 2 * i <= j <= cnt && j <= 2 * i + 1 :: cmp(At(s, j), At(s, i / 2)) <= 0)
  }

  /** Exchanging the element with the greater child moves the exception down. */
  lemma SiftDownOnce<T(!new)>(cmp: Compare<T>, s: seq<T>, lo: nat, i: nat, m: nat, cnt: nat)
    requires TotalPreorder(cmp) && 1 <= lo <= i <= cnt <= |s| && Sifting(cmp, s, lo, i, cnt)
    requires m == 2 * i || m == 2 * i + 1
    requires m <= cnt && cmp(At(s, m), At(s, i)) > 0
    requires forall j | 2 * i <= j <= cnt && j <= 2 * i + 1 :: cmp(At(s, j), At(s, m)) <= 0
    ensures Sifting(cmp, Swapped(s, i, m), lo, m, cnt)
  {
    hide TotalPreorder, Swapped;
    var r := Swapped(s, i, m);
    Total(cmp, At(s, m), At(s, i));
    forall j | 2 * lo <= j <= cnt && j / 2 != m
      ensures Below(cmp, r, j)
    {
      if j == i {
        assert At(r, j / 2) == At(s, i / 2);
      } else if j == m {
      } else if j / 2 == i {
        assert cmp(At(s, j), At(s, m)) <= 0;
      } else {
        assert Below(cmp, s, j);
      }
    }
    forall j | 2 * m <= j <= cnt && j <= 2 * m + 1
      ensures cmp(At(r, j), At(r, m / 2)) <= 0
    {
      assert j / 2 == m && Below(cmp, s, j);
    }
  }

  lemma SiftedIsHeap<T>(cmp: Compare<T>, s: seq<T>, lo: nat, i: nat, cnt: nat)
    requires 1 <= lo <= i <= cnt <= |s| && Sifting(cmp, s, lo, i, cnt)
    requires forall j | 2 * i <= j <= cnt && j <= 2 * i + 1 :: cmp(At(s, j), At(s, i)) <= 0
    ensures HeapFrom(cmp, s, lo, cnt)
  {
    forall j | 2 * lo <= j <= cnt
      ensures Below(cmp, s, j)
    {
      if j / 2 == i {
        assert cmp(At(s, j), At(s, i)) <= 0;
      }
    }
  }

  /** The root of a heap is its greatest element. */
  lemma {:induction false} RootIsGreatest<T(!new)>(cmp: Compare<T>, s: seq<T>, cnt: nat, j: nat)
    requires TotalPreorder(cmp) && 1 <= j <= cnt <= |s| && HeapFrom(cmp, s, 1, cnt)
    ensures cmp(At(s, j), At(s, 1)) <= 0
  {
    if j == 1 {
      Total(cmp, At(s, 1), At(s, 1));
    } else {
      assert Below(cmp, s, j);
      RootIsGreatest(cmp, s, cnt, j / 2);
      Transitive(cmp, At(s, j), At(s, j / 2), At(s, 1));
    }
  }

  /** do_swap. */
  method DoSwap<T>(a: array<T>, i: nat, j: nat)
    requires 1 <= i <= a.Length && 1 <= j <= a.Length
    modifies a
    ensures a[..] == Swapped(old(a[..]), i, j)
  {
    a[i - 1], a[j - 1] := a[j - 1], a[i - 1];
  }

  /** heapify floats the element at i down: the heap that began behind i begins at i afterwards. The
      elements of the heap stay the same and the rest of the array is not touched. */
  method Heapify<T(!new)>(a: array<T>, from: nat, cnt: nat, cmp: Compare<T>)
    requires TotalPreorder(cmp) && 1 <= from <= cnt <= a.Length
    requires HeapFrom(cmp, a[..], from + 1, cnt)
    modifies a
    ensures HeapFrom(cmp, a[..], from, cnt)
    ensures multiset(a[..cnt]) == multiset(old(a[..cnt]))
    ensures a[cnt..] == old(a[cnt..])
  {
    hide TotalPreorder, Swapped, Below, HeapFrom, Sifting, At;
    ghost var before := a[..];
    var i := from;
    StartSifting(cmp, before, from, cnt);
    assert before[..cnt] == a[..cnt] && before[cnt..] == a[cnt..];
    while true
      invariant from <= i <= cnt
      invariant Sifting(cmp, a[..], from, i, cnt)
      invariant multiset(a[..][..cnt]) == multiset(before[..cnt])
      invariant a[..][cnt..] == before[cnt..]
      decreases cnt - i
    {
      var left := 2 * i;
      var right := 2 * i + 1;
      var max := i;
      if left <= cnt && cmp(a[left - 1], a[max - 1]) > 0 {
        max := left;
      }
      if right <= cnt && cmp(a[right - 1], a[max - 1]) > 0 {
        max := right;
      }
      GreatestOfThree(cmp, a[..], i, cnt, max);
      if max == i {
        SiftedIsHeap(cmp, a[..], from, i, cnt);
        break;
      }
      SiftDownOnce(cmp, a[..], from, i, max, cnt);
      SwapKeepsElements(a[..], i, max, cnt);
      DoSwap(a, i, max);
      i := max;
    }
    assert a[..][..cnt] == a[..cnt] && a[..][cnt..] == a[cnt..];
  }

  lemma StartSifting<T>(cmp: Compare<T>, s: seq<T>, i: nat, cnt: nat)
    requires 1 <= i <= cnt <= |s| && HeapFrom(cmp, s, i + 1, cnt)
    ensures Sifting(cmp, s, i, i, cnt)
  {
    forall j | 2 * i <= j <= cnt && j / 2 != i
      ensures Below(cmp, s, j)
    {
    }
  }

  /** What the two comparisons choose: the greatest of an element and its children. */
  lemma GreatestOfThree<T(!new)>(cmp: Compare<T>, s: seq<T>, i: nat, cnt: nat, max: nat)
    requires TotalPreorder(cmp) && 1 <= i <= cnt <= |s|
    requires
      var m := if 2 * i <= cnt && cmp(s[2 * i - 1], s[i - 1]) > 0 then 2 * i else i;
      max == if 2 * i + 1 <= cnt && cmp(s[2 * i], s[m - 1]) > 0 then 2 * i + 1 else m
    ensures max == i || ((max == 2 * i || max == 2 * i + 1) && cmp(At(s, max), At(s, i)) > 0)
    ensures max <= cnt
    ensures forall j | 2 * i <= j <= cnt && j <= 2 * i + 1 :: cmp(At(s, j), At(s, max)) <= 0
  {
    var m := if 2 * i <= cnt && cmp(s[2 * i - 1], s[i - 1]) > 0 then 2 * i else i;
    Total(cmp, s[max - 1], s[m - 1]);
    Total(cmp, s[m - 1], s[i - 1]);
    Total(cmp, s[i - 1], s[m - 1]);
    Transitive(cmp, s[max - 1], s[i - 1], s[m - 1]);
    Transitive(cmp, s[i - 1], s[m - 1], s[max - 1]);
  }

  /** From index i on the elements are in order and nothing before them is greater than one of them. */
  ghost predicate SortedFrom<T>(cmp: Compare<T>, s: seq<T>, i: nat) {
    forall x, y | 0 <= x <= y < |s| && i <= y :: cmp(s[x], s[y]) <= 0
  }

  /** The root of the heap goes to the place just behind the shrunken heap. */
  lemma RootInPlace<T(!new)>(cmp: Compare<T>, s: seq<T>, i: nat)
    requires TotalPreorder(cmp) && 2 <= i <= |s| && HeapFrom(cmp, s, 1, i) && SortedFrom(cmp, s, i)
    ensures HeapFrom(cmp, Swapped(s, 1, i), 2, i - 1)
    ensures SortedFrom(cmp, Swapped(s, 1, i), i - 1)
  {
    var r := Swapped(s, 1, i);
    forall j | 4 <= j <= i - 1
      ensures Below(cmp, r, j)
    {
      assert Below(cmp, s, j);
    }
    forall x, y | 0 <= x <= y < |r| && i - 1 <= y
      ensures cmp(r[x], r[y]) <= 0
    {
      var from := if x == 0 then i - 1 else if x == i - 1 then 0 else x;
      assert r[x] == s[from];
      if y == i - 1 {
        assert r[y] == At(s, 1) && s[from] == At(s, from + 1);
        RootIsGreatest(cmp, s, i, from + 1);
      }
    }
  }

  /** Rearranging the heap does not spoil the order behind it. */
  lemma RearrangedStaysSorted<T>(cmp: Compare<T>, r: seq<T>, t: seq<T>, i: nat)
    requires i <= |r| == |t| && SortedFrom(cmp, r, i)
    requires multiset(t[..i]) == multiset(r[..i]) && t[i..] == r[i..]
    ensures SortedFrom(cmp, t, i)
    ensures multiset(t) == multiset(r)
  {
    assert t == t[..i] + t[i..] && r == r[..i] + r[i..];
    forall x, y | 0 <= x <= y < |t| && i <= y
      ensures cmp(t[x], t[y]) <= 0
    {
      assert t[y] == t[i..][y - i] == r[y];
      if x < i {
        assert t[x] in multiset(t[..i]);
        assert t[x] in r[..i];
        var k :| 0 <= k < i && r[k] == t[x];
      } else {
        assert t[x] == t[i..][x - i] == r[x];
      }
    }
  }

  lemma LeavesAreHeap<T>(cmp: Compare<T>, s: seq<T>, cnt: nat)
    requires cnt <= |s|
    ensures HeapFrom(cmp, s, cnt / 2 + 1, cnt)
  {
  }

  lemma OneLeft<T(!new)>(cmp: Compare<T>, s: seq<T>, i: nat)
    requires TotalPreorder(cmp) && i <= 1 && SortedFrom(cmp, s, i)
    ensures Sorted(cmp, s)
  {
    forall x, y | 0 <= x <= y < |s|
      ensures cmp(s[x], s[y]) <= 0
    {
      Total(cmp, s[x], s[x]);
    }
  }

  lemma NothingSorted<T>(cmp: Compare<T>, s: seq<T>)
    ensures SortedFrom(cmp, s, |s|)
  {
  }

  lemma SwapKeepsAll<T>(s: seq<T>, i: nat, j: nat)
    requires 1 <= i <= |s| && 1 <= j <= |s|
    ensures multiset(Swapped(s, i, j)) == multiset(s)
  {
    SwapKeepsElements(s, i, j, |s|);
    assert Swapped(s, i, j)[..|s|] == Swapped(s, i, j) && s[..|s|] == s;
  }

  /** sort leaves the same elements in order. */
  method Sort<T(!new)>(a: array<T>, cmp: Compare<T>)
    requires TotalPreorder(cmp)
    modifies a
    ensures Sorted(cmp, a[..])
    ensures multiset(a[..]) == multiset(old(a[..]))
  {
    hide *;
    var cnt := a.Length;
    var i := cnt / 2;
    LeavesAreHeap(cmp, a[..], cnt);
    while i > 0
      invariant 0 <= i <= cnt / 2
      invariant HeapFrom(cmp, a[..], i + 1, cnt)
      invariant multiset(a[..]) == multiset(old(a[..]))
    {
      ghost var before := a[..];
      assert a[..cnt] == before;
      Heapify(a, i, cnt, cmp);
      assert a[..cnt] == a[..];
      i := i - 1;
    }
    i := cnt;
    NothingSorted(cmp, a[..]);
    while i > 1
      invariant 0 <= i <= cnt
      invariant i > 0 ==> HeapFrom(cmp, a[..], 1, i)
      invariant SortedFrom(cmp, a[..], i)
      invariant multiset(a[..]) == multiset(old(a[..]))
    {
      i := PutRoot(a, i, cmp);
    }
    OneLeft(cmp, a[..], i);
  }

  /** One round of the second loop of sort. */
  method PutRoot<T(!new)>(a: array<T>, i: nat, cmp: Compare<T>) returns (next: nat)
    requires TotalPreorder(cmp) && 2 <= i <= a.Length
    requires HeapFrom(cmp, a[..], 1, i) && SortedFrom(cmp, a[..], i)
    modifies a
    ensures next == i - 1
    ensures HeapFrom(cmp, a[..], 1, next) && SortedFrom(cmp, a[..], next)
    ensures multiset(a[..]) == multiset(old(a[..]))
  {
    hide *;
    RootInPlace(cmp, a[..], i);
    SwapKeepsAll(a[..], 1, i);
    DoSwap(a, 1, i);
    ghost var r := a[..];
    Heapify(a, 1, i - 1, cmp);
    assert r[..i - 1] == old(Swapped(a[..], 1, i))[..i - 1];
    assert a[..][..i - 1] == a[..i - 1] && a[..][i - 1..] == a[i - 1..];
    RearrangedStaysSorted(cmp, r, a[..], i - 1);
    next := i - 1;
  }

  /** binary_search finds a matching element exactly when there is one. */
  method BinarySearch<T(!new)>(key: T, a: array<T>, cmp: Compare<T>) returns (found: Option<nat>)
    requires TotalPreorder(cmp) && Sorted(cmp, a[..])
    ensures found.Some? ==> found.value < a.Length && cmp(key, a[found.value]) == 0
    ensures found.None? ==> forall k | 0 <= k < a.Length :: cmp(key, a[k]) != 0
  {
    hide TotalPreorder;
    var first := 0;
    var last := a.Length;
    while first < last
      invariant 0 <= first <= last <= a.Length
      invariant forall k | 0 <= k < first :: cmp(key, a[k]) > 0
      invariant forall k | last <= k < a.Length :: cmp(key, a[k]) < 0
    {
      var range := last - first;
      var middle := first + range / 2;
      var c := cmp(key, a[middle]);
      forall k | 0 <= k < a.Length
        ensures c < 0 && middle <= k ==> cmp(key, a[k]) < 0
        ensures c > 0 && k <= middle ==> cmp(key, a[k]) > 0
      {
        assert a[..][middle] == a[middle] && a[..][k] == a[k];
        SameSide(cmp, key, a[..], middle, k);
      }
      if c < 0 {
        last := middle;
      } else if c > 0 {
        first := middle + 1;
      } else {
        return Some(middle);
      }
    }
    found := None;
  }

  lemma SameSide<T(!new)>(cmp: Compare<T>, key: T, s: seq<T>, m: nat, k: nat)
    requires TotalPreorder(cmp) && Sorted(cmp, s) && m < |s| && k < |s|
    ensures cmp(key, s[m]) < 0 && m <= k ==> cmp(key, s[k]) < 0
    ensures cmp(key, s[m]) > 0 && k <= m ==> cmp(key, s[k]) > 0
  {
    Total(cmp, key, s[k]);
    Total(cmp, key, s[m]);
    Total(cmp, s[k], key);
    Total(cmp, s[m], key);
    Transitive(cmp, s[m], s[k], key);
    Transitive(cmp, key, s[k], s[m]);
  }
}
