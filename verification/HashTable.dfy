/** The hash table of lib/kernel/hash.c: a power-of-two number of buckets that follows the number of
    elements, as long as there is memory for new buckets. */
module HashTable {
  import opened Wrappers
  import opened Powers

  // ----- Bits -------------------------------------------------------------------------------------

  /** The bitwise and of two numbers. */
  function And(x: nat, y: nat): nat {
    if x == 0 || y == 0 then 0 else 2 * And(x / 2, y / 2) + (x % 2) * (y % 2)
  }

  function TurnOffLeast1Bit(x: nat): nat
    requires x > 0
  {
    And(x, x - 1)
  }

  ghost predicate IsPow(x: nat) {
    exists k: nat :: x == Pow2(k)
  }

  predicate IsPowerOf2(x: nat) {
    x != 0 && TurnOffLeast1Bit(x) == 0
  }

  lemma {:induction false} AndZero(x: nat)
    ensures And(x, x) == x && And(x, 0) == 0
  {
    if x > 0 {
      AndZero(x / 2);
      assert (x % 2) * (x % 2) == x % 2;
    }
  }

  /** Turning off the lowest bit of an odd number subtracts one; on an even number it happens in the
      upper half. */
  lemma TurnOffHalves(x: nat)
    requires x > 0
    ensures x % 2 == 1 ==> TurnOffLeast1Bit(x) == x - 1
    ensures x % 2 == 0 ==> TurnOffLeast1Bit(x) == 2 * TurnOffLeast1Bit(x / 2)
  {
    if x % 2 == 1 {
      if x > 1 {
        AndZero(x / 2);
        assert (x - 1) / 2 == x / 2 && (x - 1) % 2 == 0;
      }
    } else {
      assert (x - 1) / 2 == x / 2 - 1 && (x - 1) % 2 == 1;
      if x == 2 {
        assert And(1, 0) == 0;
      }
    }
  }

  /** The test for a power of two is right. */
  lemma {:induction false} PowerOf2Test(x: nat)
    ensures IsPowerOf2(x) <==> IsPow(x)
  {
    if x == 1 {
      TurnOffHalves(1);
      PowIs(0);
    } else if x > 1 {
      TurnOffHalves(x);
      HalfPower(x);
      if x % 2 == 0 {
        PowerOf2Test(x / 2);
      }
    }
  }

  lemma HalfPower(x: nat)
    requires x > 1
    ensures IsPow(x) <==> x % 2 == 0 && IsPow(x / 2)
  {
    if IsPow(x) {
      var k: nat :| x == Pow2(k);
      assert k > 0 && x / 2 == Pow2(k - 1);
    }
    if x % 2 == 0 && IsPow(x / 2) {
      var k: nat :| x / 2 == Pow2(k);
      PowIs(k + 1);
      assert x == Pow2(k + 1);
    }
  }

  lemma PowIs(k: nat)
    ensures IsPow(Pow2(k))
  {
  }

  /** Masking with one less than a power of two is the remainder. */
  lemma {:induction false} MaskIsRemainder(h: nat, k: nat)
    ensures And(h, Pow2(k) - 1) == h % Pow2(k)
    decreases k
  {
    hide And;
    if k > 0 {
      var p := Pow2(k - 1);
      MaskIsRemainder(h / 2, k - 1);
      RemainderOfDouble(h, p);
      AndOfOdd(h, p - 1);
    } else {
      AndNothing(h);
    }
  }

  lemma AndOfOdd(h: nat, x: nat)
    ensures And(h, 2 * x + 1) == 2 * And(h / 2, x) + h % 2
  {
    assert (2 * x + 1) / 2 == x && (2 * x + 1) % 2 == 1;
  }

  lemma AndNothing(h: nat)
    ensures And(h, 0) == 0 && h % 1 == 0
  {
  }

  lemma RemainderOfDouble(h: nat, p: nat)
    requires p > 0
    ensures h % (2 * p) == 2 * (h / 2 % p) + h % 2
  {
    var q, r := h / 2 / p, h / 2 % p;
    assert h / 2 == q * p + r;
    assert h == q * (2 * p) + (2 * r + h % 2);
    UniqueRemainder(h, 2 * p, q, 2 * r + h % 2);
  }

  lemma UniqueRemainder(a: nat, n: nat, q: int, r: nat)
    requires n > 0 && a == q * n + r && r < n
    ensures a % n == r
  {
    var d := a / n - q;
    assert d * n == r - a % n;
    if d > 0 {
      Scales(1, d, n);
    } else if d < 0 {
      Scales(d, -1, n);
    }
  }

  lemma Scales(x: int, y: int, n: nat)
    requires x <= y
    ensures x * n <= y * n
  {
  }

  /** The loop of rehash that turns bits off: the greatest power of two that is not above n. */
  method PowerBelow(n: nat) returns (p: nat, ghost k: nat)
    requires n > 0
    ensures p == Pow2(k) && p <= n < 2 * p
  {
    p := n;
    k := Log(n);
    while !IsPowerOf2(p)
      invariant Pow2(k) <= p <= n < 2 * Pow2(k)
      decreases p
    {
      NotYetPower(p, k);
      p := TurnOffLeast1Bit(p);
    }
    PowerBetween(p, k);
  }

  /** Turning off the lowest bit of a number that is not a power of two leaves the highest. */
  lemma {:induction false} NotYetPower(x: nat, k: nat)
    requires x > 0 && !IsPowerOf2(x) && Pow2(k) <= x < 2 * Pow2(k)
    ensures Pow2(k) <= TurnOffLeast1Bit(x) < x
    decreases k
  {
    TurnOffHalves(x);
    if x % 2 == 0 {
      if k > 0 {
        NotYetPower(x / 2, k - 1);
      }
    } else if k > 0 {
      assert Pow2(k) % 2 == 0;
    }
  }

  lemma {:induction false} PowerBetween(x: nat, k: nat)
    requires IsPowerOf2(x) && Pow2(k) <= x < 2 * Pow2(k)
    ensures x == Pow2(k)
    decreases k
  {
    TurnOffHalves(x);
    if k > 0 {
      if x % 2 == 0 {
        PowerBetween(x / 2, k - 1);
      }
    }
  }

  // ----- Elements ---------------------------------------------------------------------------------

  /** Elements are equal when neither is less than the other. */
  predicate Same<E>(less: (E, E) -> bool, x: E, y: E) {
    !less(x, y) && !less(y, x)
  }

  /** What the caller's functions must be: less a strict weak order, and equal elements with equal
      hash values. */
  ghost predicate Compatible<E(!new)>(hash: E -> nat, less: (E, E) -> bool) {
    && (forall x :: Same(less, x, x))
    && (forall x, y, z :: Same(less, x, y) && Same(less, y, z) ==> Same(less, x, z))
    && (forall x, y :: Same(less, x, y) ==> hash(x) == hash(y))
  }

  /** The elements of the buckets, one bucket after the other. */
  function Flat<E>(buckets: seq<seq<E>>): seq<E> {
    if buckets == [] then [] else buckets[0] + Flat(buckets[1..])
  }

  lemma {:induction false} FlatUpdate<E>(buckets: seq<seq<E>>, i: nat, b: seq<E>)
    requires i < |buckets|
    ensures multiset(Flat(buckets[i := b])) + multiset(buckets[i]) == multiset(Flat(buckets)) + multiset(b)
    ensures |Flat(buckets[i := b])| + |buckets[i]| == |Flat(buckets)| + |b|
  {
    var rest := buckets[1..];
    if i == 0 {
      assert buckets[0 := b][1..] == rest;
      assert Flat(buckets[0 := b]) == b + Flat(rest);
      assert Flat(buckets) == buckets[0] + Flat(rest);
    } else {
      FlatUpdate(rest, i - 1, b);
      assert buckets[i := b][1..] == rest[i - 1 := b];
      assert Flat(buckets[i := b]) == buckets[0] + Flat(rest[i - 1 := b]);
      assert Flat(buckets) == buckets[0] + Flat(rest) && buckets[i] == rest[i - 1];
      AddToBoth(multiset(buckets[0]), multiset(Flat(rest[i - 1 := b])), multiset(buckets[i]), multiset(Flat(rest)), multiset(b));
    }
  }

  lemma AddToBoth<E>(a: multiset<E>, x: multiset<E>, y: multiset<E>, z: multiset<E>, w: multiset<E>)
    requires x + y == z + w
    ensures (a + x) + y == (a + z) + w
  {
    assert (a + x) + y == a + (x + y);
    assert (a + z) + w == a + (z + w);
  }

  lemma {:induction false} FlatMember<E>(buckets: seq<seq<E>>, x: E)
    ensures x in Flat(buckets) <==> exists i :: 0 <= i < |buckets| && x in buckets[i]
  {
    if buckets != [] {
      FlatMember(buckets[1..], x);
      if x in Flat(buckets[1..]) {
        var i :| 0 <= i < |buckets| - 1 && x in buckets[1..][i];
        assert x in buckets[i + 1];
      }
      forall i | 0 <= i < |buckets| && x in buckets[i]
        ensures x in Flat(buckets)
      {
        if i > 0 {
          assert x in buckets[1..][i - 1];
        }
      }
    }
  }

  lemma {:induction false} FlatEmpty<E>(buckets: seq<seq<E>>)
    requires forall i | 0 <= i < |buckets| :: buckets[i] == []
    ensures Flat(buckets) == []
  {
    if buckets != [] {
      FlatEmpty(buckets[1..]);
    }
  }

  // ----- Buckets ----------------------------------------------------------------------------------

  /** No two elements of a bucket are equal. */
  predicate NoTwins<E>(less: (E, E) -> bool, b: seq<E>) {
    forall i, j :: 0 <= i < j < |b| ==> !Same(less, b[i], b[j])
  }

  /** Every element is in the bucket that its hash value, modulo the number of buckets, says, and no
      two elements are equal. */
  ghost predicate Placed<E>(hash: E -> nat, less: (E, E) -> bool, buckets: seq<seq<E>>) {
    && |buckets| > 0
    && (forall i, x | 0 <= i < |buckets| && x in buckets[i] :: hash(x) % |buckets| == i)
    && (forall i | 0 <= i < |buckets| :: NoTwins(less, buckets[i]))
  }

  /** The position of an element equal to e in a bucket: find_elem. */
  function FindIn<E>(less: (E, E) -> bool, b: seq<E>, e: E): (r: Option<nat>)
    ensures r.Some? ==> r.value < |b| && Same(less, b[r.value], e)
    ensures r.None? ==> forall i | 0 <= i < |b| :: !Same(less, b[i], e)
  {
    if b == [] then None
    else if Same(less, b[0], e) then Some(0)
    else match FindIn(less, b[1..], e) case Some(i) => Some(i + 1) case None => None
  }

  lemma ConcatNoTwins<E>(less: (E, E) -> bool, a: seq<E>, b: seq<E>)
    requires NoTwins(less, a) && NoTwins(less, b)
    requires forall x, y | x in a && y in b :: !Same(less, x, y)
    ensures NoTwins(less, a + b)
  {
    hide Same;
    var s := a + b;
    forall i, j | 0 <= i < j < |s|
      ensures !Same(less, s[i], s[j])
    {
      if i < |a| <= j {
        assert s[i] in a && s[j] in b;
      }
    }
  }

  /** No two elements of the whole table are equal, and so no element is in it twice. */
  lemma PlacedHasNoTwins<E(!new)>(hash: E -> nat, less: (E, E) -> bool, buckets: seq<seq<E>>)
    requires Compatible(hash, less) && Placed(hash, less, buckets)
    ensures NoTwins(less, Flat(buckets))
  {
    SuffixHasNoTwins(hash, less, buckets, 0, |buckets|);
  }

  lemma {:induction false} SuffixHasNoTwins<E(!new)>(hash: E -> nat, less: (E, E) -> bool, buckets: seq<seq<E>>, from: nat, cnt: nat)
    requires Compatible(hash, less) && cnt > 0
    requires forall i, x | 0 <= i < |buckets| && x in buckets[i] :: hash(x) % cnt == from + i
    requires forall i | 0 <= i < |buckets| :: NoTwins(less, buckets[i])
    ensures NoTwins(less, Flat(buckets))
  {
    if buckets != [] {
      var rest := buckets[1..];
      assert forall i | 0 <= i < |rest| :: rest[i] == buckets[i + 1];
      SuffixHasNoTwins(hash, less, rest, from + 1, cnt);
      forall x, y | x in buckets[0] && y in Flat(rest)
        ensures !Same(less, x, y)
      {
        FlatMember(rest, y);
        var i :| 0 <= i < |rest| && y in rest[i];
        assert hash(x) % cnt == from && hash(y) % cnt == from + 1 + i;
      }
      ConcatNoTwins(less, buckets[0], Flat(rest));
    }
  }

  /** An element that is equal to none in its bucket is equal to none in the table. */
  lemma NotInTable<E(!new)>(hash: E -> nat, less: (E, E) -> bool, buckets: seq<seq<E>>, e: E)
    requires Compatible(hash, less) && Placed(hash, less, buckets)
    requires forall x | x in buckets[hash(e) % |buckets|] :: !Same(less, x, e)
    ensures forall x | x in Flat(buckets) :: !Same(less, x, e)
  {
    forall x | x in Flat(buckets)
      ensures !Same(less, x, e)
    {
      FlatMember(buckets, x);
      var i :| 0 <= i < |buckets| && x in buckets[i];
    }
  }

  /** insert_elem: at the front of its bucket. */
  function Inserted<E>(hash: E -> nat, buckets: seq<seq<E>>, e: E): seq<seq<E>>
    requires |buckets| > 0
  {
    var i := hash(e) % |buckets|;
    buckets[i := [e] + buckets[i]]
  }

  lemma InsertedPlaced<E(!new)>(hash: E -> nat, less: (E, E) -> bool, buckets: seq<seq<E>>, e: E)
    requires Compatible(hash, less) && Placed(hash, less, buckets)
    requires forall x | x in buckets[hash(e) % |buckets|] :: !Same(less, x, e)
    ensures Placed(hash, less, Inserted(hash, buckets, e))
    ensures multiset(Flat(Inserted(hash, buckets, e))) == multiset(Flat(buckets)) + multiset{e}
    ensures |Flat(Inserted(hash, buckets, e))| == |Flat(buckets)| + 1
  {
    var i := hash(e) % |buckets|;
    var b, b' := buckets[i], [e] + buckets[i];
    FlatUpdate(buckets, i, b');
    CancelFromBoth(multiset(Flat(Inserted(hash, buckets, e))), multiset(b), multiset(Flat(buckets)), multiset{e});
    ConcatNoTwins(less, [e], b);
    hide Same, NoTwins, Flat;
    assert forall x | x in b' :: x == e || x in b;
  }

  lemma CancelFromBoth<E>(a: multiset<E>, b: multiset<E>, c: multiset<E>, d: multiset<E>)
    requires a + b == c + (d + b)
    ensures a == c + d
  {
    assert a == (a + b) - b;
    assert (c + (d + b)) - b == c + d;
  }

  /** remove_elem, of the element at position k of bucket i. */
  function RemovedAt<E>(buckets: seq<seq<E>>, i: nat, k: nat): seq<seq<E>>
    requires i < |buckets| && k < |buckets[i]|
  {
    buckets[i := buckets[i][..k] + buckets[i][k + 1..]]
  }

  lemma RemovedPlaced<E(!new)>(hash: E -> nat, less: (E, E) -> bool, buckets: seq<seq<E>>, i: nat, k: nat)
    requires Placed(hash, less, buckets) && i < |buckets| && k < |buckets[i]|
    ensures Placed(hash, less, RemovedAt(buckets, i, k))
    ensures multiset(Flat(RemovedAt(buckets, i, k))) == multiset(Flat(buckets)) - multiset{buckets[i][k]}
    ensures |Flat(RemovedAt(buckets, i, k))| == |Flat(buckets)| - 1
    ensures NoTwins(less, buckets[i]) ==> forall x | x in RemovedAt(buckets, i, k)[i] :: !Same(less, x, buckets[i][k])
  {
    var b, b' := buckets[i], buckets[i][..k] + buckets[i][k + 1..];
    FlatUpdate(buckets, i, b');
    assert b == b[..k] + [b[k]] + b[k + 1..];
    assert multiset(b) == multiset(b') + multiset{b[k]};
    TakeFromBoth(multiset(Flat(RemovedAt(buckets, i, k))), multiset(b'), multiset{b[k]}, multiset(Flat(buckets)));
    RemovedNoTwins(less, b, k);
    hide Same, NoTwins, Flat;
    assert forall x | x in b' :: x in b;
  }

  lemma TakeFromBoth<E>(a: multiset<E>, b: multiset<E>, x: multiset<E>, c: multiset<E>)
    requires a + (b + x) == c + b
    ensures a == c - x
  {
    assert (a + (b + x)) - b == a + x;
    assert (c + b) - b == c;
    assert (a + x) - x == a;
  }

  lemma RemovedNoTwins<E>(less: (E, E) -> bool, b: seq<E>, k: nat)
    requires k < |b| && NoTwins(less, b)
    ensures NoTwins(less, b[..k] + b[k + 1..])
    ensures forall x | x in b[..k] + b[k + 1..] :: !Same(less, x, b[k])
  {
    var s := b[..k] + b[k + 1..];
    forall j | 0 <= j < |s|
      ensures s[j] == b[if j < k then j else j + 1] && !Same(less, s[j], b[k])
    {
      assert j >= k ==> !Same(less, b[k], b[j + 1]);
    }
  }

  // ----- Rehashing --------------------------------------------------------------------------------

  /** Each element moves to the front of its new bucket. */
  function MoveAll<E>(hash: E -> nat, news: seq<seq<E>>, olds: seq<E>): (r: seq<seq<E>>)
    requires |news| > 0
    ensures |r| == |news|
    decreases |olds|
  {
    if olds == [] then news else MoveAll(hash, Inserted(hash, news, olds[0]), olds[1..])
  }

  lemma {:induction false} MoveAllPlaced<E(!new)>(hash: E -> nat, less: (E, E) -> bool, news: seq<seq<E>>, olds: seq<E>)
    requires Compatible(hash, less) && Placed(hash, less, news) && NoTwins(less, olds)
    requires forall x, y | x in Flat(news) && y in olds :: !Same(less, x, y)
    ensures Placed(hash, less, MoveAll(hash, news, olds))
    ensures multiset(Flat(MoveAll(hash, news, olds))) == multiset(Flat(news)) + multiset(olds)
    ensures |Flat(MoveAll(hash, news, olds))| == |Flat(news)| + |olds|
    decreases |olds|
  {
    if olds != [] {
      var e, rest := olds[0], olds[1..];
      assert olds == [e] + rest;
      forall x | x in news[hash(e) % |news|]
        ensures !Same(less, x, e)
      {
        FlatMember(news, x);
      }
      InsertedPlaced(hash, less, news, e);
      var next := Inserted(hash, news, e);
      forall x, y | x in Flat(next) && y in rest
        ensures !Same(less, x, y)
      {
        assert x in multiset(Flat(next));
        if x == e {
          FirstHasNoTwin(less, olds, y);
        } else {
          assert x in multiset(Flat(news));
        }
      }
      hide Same, Flat, Inserted;
      MoveAllPlaced(hash, less, next, rest);
    }
  }

  lemma FirstHasNoTwin<E>(less: (E, E) -> bool, s: seq<E>, y: E)
    requires s != [] && NoTwins(less, s) && y in s[1..]
    ensures !Same(less, s[0], y)
  {
    var j :| 0 <= j < |s| - 1 && s[1..][j] == y;
    assert s[j + 1] == y;
  }

  // ----- The table --------------------------------------------------------------------------------

  /** struct hash. */
  class Table<E(==, !new)> {
    const hash: E -> nat
    const less: (E, E) -> bool
    var elemCnt: nat
    var bucketCnt: nat
    var buckets: seq<seq<E>>

    ghost predicate Valid()
      reads this
    {
      && Compatible(hash, less)
      && bucketCnt == |buckets| && bucketCnt >= 4 && IsPow(bucketCnt)
      && Placed(hash, less, buckets)
      && elemCnt == |Flat(buckets)|
    }

    /** The elements; Valid says that no two of them are equal. */
    ghost function Elems(): multiset<E>
      reads this
    {
      multiset(Flat(buckets))
    }

    /** The number of buckets suits the number of elements: from 2 to just under 4 for each bucket, or four buckets
        for fewer than 8. */
    predicate Suited()
      reads this
    {
      if elemCnt >= 8 then 2 * bucketCnt <= elemCnt < 4 * bucketCnt else bucketCnt == 4
    }

    /** hash_init, when there is memory. */
    constructor (hash: E -> nat, less: (E, E) -> bool)
      requires Compatible(hash, less)
      ensures Valid() && Elems() == multiset{} && bucketCnt == 4 && Suited() && this.hash == hash && this.less == less
    {
      this.hash, this.less := hash, less;
      elemCnt, bucketCnt := 0, 4;
      buckets := [[], [], [], []];
      new;
      FlatEmpty(buckets);
      assert Pow2(2) == 4;
      PowIs(2);
    }

    /** find_bucket: masking the hash value picks the bucket. */
    function FindBucket(e: E): (i: nat)
      requires Valid()
      reads this
      ensures i < |buckets| && i == hash(e) % |buckets|
    {
      var k: nat :| bucketCnt == Pow2(k);
      MaskIsRemainder(hash(e), k);
      And(hash(e), bucketCnt - 1)
    }

    /** find_elem. */
    method FindElem(i: nat, e: E) returns (r: Option<nat>)
      requires i < |buckets|
      ensures r == FindIn(less, buckets[i], e)
    {
      var b, k := buckets[i], 0;
      while k < |b|
        invariant k <= |b|
        invariant FindIn(less, b, e) == match FindIn(less, b[k..], e) case Some(j) => Some(k + j) case None => None
      {
        assert b[k..][1..] == b[k + 1..];
        if Same(less, b[k], e) {
          return Some(k);
        }
        k := k + 1;
      }
      return None;
    }

    lemma Found(i: nat, k: nat)
      requires Valid() && i < |buckets| && k < |buckets[i]|
      ensures buckets[i][k] in Elems()
    {
      FlatMember(buckets, buckets[i][k]);
    }

    lemma NotFound(e: E)
      requires Valid() && FindIn(less, buckets[hash(e) % |buckets|], e).None?
      ensures forall x | x in Elems() :: !Same(less, x, e)
    {
      var b := buckets[hash(e) % |buckets|];
      assert forall x | x in b :: !Same(less, x, e);
      NotInTable(hash, less, buckets, e);
    }

    /** hash_find. */
    method Find(e: E) returns (r: Option<E>)
      requires Valid()
      ensures r.Some? ==> r.value in Elems() && Same(less, r.value, e)
      ensures r.None? ==> forall x | x in Elems() :: !Same(less, x, e)
    {
      hide Placed, Compatible, Flat;
      var i := FindBucket(e);
      var k := FindElem(i, e);
      match k {
        case Some(j) =>
          Found(i, j);
          return Some(buckets[i][j]);
        case None =>
          NotFound(e);
          return None;
      }
    }

    /** hash_insert; memory says whether rehash finds room for new buckets. */
    method Insert(e: E, memory: bool) returns (old_: Option<E>)
      requires Valid()
      modifies this
      ensures Valid()
      ensures old_.Some? ==> old_.value in old(Elems()) && Same(less, old_.value, e) && Elems() == old(Elems())
      ensures old_.None? ==> (forall x | x in old(Elems()) :: !Same(less, x, e)) && Elems() == old(Elems()) + multiset{e}
      ensures if memory then Suited() else bucketCnt == old(bucketCnt)
    {
      hide Placed, Compatible, Flat, Same;
      var i := FindBucket(e);
      var k := FindElem(i, e);
      if k.Some? {
        Found(i, k.value);
        old_ := Some(buckets[i][k.value]);
      } else {
        NotFound(e);
        InsertElem(e);
        old_ := None;
      }
      Rehash(memory);
    }

    /** insert_elem, of an element that is equal to none in the table. */
    method InsertElem(e: E)
      requires Valid() && forall x | x in buckets[hash(e) % |buckets|] :: !Same(less, x, e)
      modifies this`elemCnt, this`buckets
      ensures Valid() && Elems() == old(Elems()) + multiset{e} && bucketCnt == old(bucketCnt)
    {
      hide Compatible, Placed, Flat;
      var i := FindBucket(e);
      InsertedPlaced(hash, less, buckets, e);
      elemCnt := elemCnt + 1;
      buckets := buckets[i := [e] + buckets[i]];
    }

    /** remove_elem. */
    method RemoveElem(i: nat, k: nat)
      requires Valid() && i < |buckets| && k < |buckets[i]|
      modifies this`elemCnt, this`buckets
      ensures Valid() && |buckets| == |old(buckets)| && Elems() == old(Elems()) - multiset{old(buckets)[i][k]}
      ensures forall x | x in buckets[i] :: !Same(less, x, old(buckets)[i][k])
    {
      assert NoTwins(less, buckets[i]);
      hide Compatible, Placed, Flat, NoTwins;
      RemovedPlaced(hash, less, buckets, i, k);
      elemCnt := elemCnt - 1;
      buckets := buckets[i := buckets[i][..k] + buckets[i][k + 1..]];
    }

    /** hash_replace. */
    method Replace(e: E, memory: bool) returns (old_: Option<E>)
      requires Valid()
      modifies this
      ensures Valid()
      ensures old_.Some? ==> old_.value in old(Elems()) && Same(less, old_.value, e)
                             && Elems() == old(Elems()) - multiset{old_.value} + multiset{e}
      ensures old_.None? ==> (forall x | x in old(Elems()) :: !Same(less, x, e)) && Elems() == old(Elems()) + multiset{e}
      ensures if memory then Suited() else bucketCnt == old(bucketCnt)
    {
      var i := FindBucket(e);
      var k := FindElem(i, e);
      if k.Some? {
        Found(i, k.value);
        old_ := Some(buckets[i][k.value]);
        SameAsNew(hash, less, old_.value, e);
        hide Compatible, Placed, Flat, Same;
        RemoveElem(i, k.value);
      } else {
        NotFound(e);
        old_ := None;
      }
      InsertElem(e);
      Rehash(memory);
    }

    /** hash_delete. */
    method Delete(e: E, memory: bool) returns (found: Option<E>)
      requires Valid()
      modifies this
      ensures Valid()
      ensures found.Some? ==> found.value in old(Elems()) && Same(less, found.value, e)
                              && Elems() == old(Elems()) - multiset{found.value}
      ensures found.None? ==> (forall x | x in old(Elems()) :: !Same(less, x, e)) && Elems() == old(Elems())
      ensures if found.Some? && memory then Suited() else bucketCnt == old(bucketCnt) && elemCnt <= old(elemCnt)
      ensures memory && old(Suited()) ==> Suited()
    {
      hide Placed, Compatible, Flat, Same;
      var i := FindBucket(e);
      var k := FindElem(i, e);
      if k.Some? {
        Found(i, k.value);
        found := Some(buckets[i][k.value]);
        RemoveElem(i, k.value);
        Rehash(memory);
      } else {
        NotFound(e);
        found := None;
      }
    }

    /** rehash. Without memory the number of buckets stays as it is; with memory, and 8 elements or
        more, there are from 2 to just under 4 elements for each bucket. */
    method Rehash(memory: bool)
      requires Valid()
      modifies this`bucketCnt, this`buckets
      ensures Valid() && Elems() == old(Elems())
      ensures if memory then Suited() else buckets == old(buckets)
    {
      var newCnt := elemCnt / 2;
      if newCnt < 4 {
        newCnt := 4;
      }
      ghost var wanted, k := newCnt, 0;
      newCnt, k := PowerBelow(newCnt);
      PowIs(k);
      AtLeastFour(newCnt, k, wanted);
      if newCnt == bucketCnt || !memory {
        return;
      }
      hide Compatible, Placed, Flat, IsPow;
      Redistribute(newCnt);
    }

    /** The part of rehash that makes the new buckets and moves the elements. */
    method Redistribute(newCnt: nat)
      requires Valid() && newCnt >= 4 && IsPow(newCnt)
      modifies this`bucketCnt, this`buckets
      ensures Valid() && Elems() == old(Elems()) && bucketCnt == newCnt
    {
      var olds := buckets;
      ghost var cnt := elemCnt;
      PlacedHasNoTwins(hash, less, olds);
      var news: seq<seq<E>> := seq(newCnt, i => []);
      FlatEmpty(news);
      assert Placed(hash, less, news);
      hide Compatible, Placed, Flat, IsPow;
      MoveAllPlaced(hash, less, news, Flat(olds));
      ghost var empty := news;
      var i := 0;
      WholeTable(olds);
      while i < |olds|
        invariant i <= |olds| && |news| == newCnt
        invariant MoveAll(hash, news, Flat(olds[i..])) == MoveAll(hash, empty, Flat(olds))
      {
        BucketThenRest(olds, i);
        ghost var before := news;
        news := MoveBucket(olds[i], news);
        MoveConcat(hash, before, olds[i], Flat(olds[i + 1..]));
        i := i + 1;
      }
      NothingLeft(olds);
      bucketCnt, buckets := newCnt, news;
    }

    /** The inner loop of rehash. */
    method MoveBucket(b: seq<E>, from: seq<seq<E>>) returns (news: seq<seq<E>>)
      requires |from| > 0 && IsPow(|from|)
      ensures news == MoveAll(hash, from, b)
    {
      news := from;
      var j := 0;
      assert b[0..] == b;
      while j < |b|
        invariant j <= |b| && |news| == |from|
        invariant MoveAll(hash, news, b[j..]) == MoveAll(hash, from, b)
      {
        ghost var k: nat :| |news| == Pow2(k);
        MaskIsRemainder(hash(b[j]), k);
        var i := And(hash(b[j]), |news| - 1);
        assert b[j..][1..] == b[j + 1..];
        news := news[i := [b[j]] + news[i]];
        j := j + 1;
      }
    }
  }

  lemma SameAsNew<E(!new)>(hash: E -> nat, less: (E, E) -> bool, x: E, e: E)
    requires Compatible(hash, less) && Same(less, x, e)
    ensures hash(x) == hash(e) && forall y :: Same(less, y, e) ==> Same(less, y, x)
  {
    assert Same(less, e, x);
    forall y | Same(less, y, e)
      ensures Same(less, y, x)
    {
      assert Same(less, y, e) && Same(less, e, x);
    }
  }

  lemma AtLeastFour(p: nat, k: nat, n: nat)
    requires p == Pow2(k) && p <= n < 2 * p && n >= 4
    ensures p >= 4 && (n == 4 ==> p == 4)
  {
    assert Pow2(0) == 1 && Pow2(1) == 2 && Pow2(2) == 4 && Pow2(3) == 8;
    if k > 3 {
      PowGrows(3, k);
    }
  }

  lemma {:induction false} PowGrows(j: nat, k: nat)
    requires j <= k
    ensures Pow2(j) <= Pow2(k)
  {
    if j < k {
      PowGrows(j, k - 1);
    }
  }

  lemma {:induction false} MoveConcat<E>(hash: E -> nat, news: seq<seq<E>>, a: seq<E>, b: seq<E>)
    requires |news| > 0
    ensures MoveAll(hash, news, a + b) == MoveAll(hash, MoveAll(hash, news, a), b)
    decreases |a|
  {
    if a == [] {
      assert a + b == b;
    } else {
      assert (a + b)[1..] == a[1..] + b;
      MoveConcat(hash, Inserted(hash, news, a[0]), a[1..], b);
    }
  }

  lemma BucketThenRest<E>(buckets: seq<seq<E>>, i: nat)
    requires i < |buckets|
    ensures Flat(buckets[i..]) == buckets[i] + Flat(buckets[i + 1..])
  {
    assert buckets[i..][1..] == buckets[i + 1..];
  }

  lemma WholeTable<E>(buckets: seq<seq<E>>)
    ensures Flat(buckets[0..]) == Flat(buckets)
  {
    assert buckets[0..] == buckets;
  }

  lemma NothingLeft<E>(buckets: seq<seq<E>>)
    ensures Flat(buckets[|buckets|..]) == []
  {
  }

  // ----- Iteration --------------------------------------------------------------------------------

  /** struct hash_iterator: an element by its bucket and its position there; -1 is the bucket's list
      head, before its first element. */
  datatype Iterator = Iterator(bucket: nat, pos: int)

  predicate Within<E>(buckets: seq<seq<E>>, it: Iterator) {
    it.bucket < |buckets| && -1 <= it.pos < |buckets[it.bucket]|
  }

  /** What is still to come. */
  function Rest<E>(buckets: seq<seq<E>>, it: Iterator): seq<E>
    requires Within(buckets, it)
  {
    buckets[it.bucket][it.pos + 1..] + Flat(buckets[it.bucket + 1..])
  }

  /** hash_first; all elements are to come, each as often as it is in the table, which is once. */
  lemma FirstBeforeAll<E>(buckets: seq<seq<E>>)
    requires |buckets| > 0
    ensures Within(buckets, Iterator(0, -1)) && Rest(buckets, Iterator(0, -1)) == Flat(buckets)
  {
    assert buckets[0][0..] == buckets[0];
  }

  /** hash_next: the first of the elements that are still to come; a null pointer when there is none. */
  method Next<E>(buckets: seq<seq<E>>, it: Iterator) returns (next: Option<(Iterator, E)>)
    requires Within(buckets, it)
    ensures next.None? <==> Rest(buckets, it) == []
    ensures next.Some? ==>
      var (it', e) := next.value;
      && Within(buckets, it') && it'.pos >= 0 && buckets[it'.bucket][it'.pos] == e
      && Rest(buckets, it) == [e] + Rest(buckets, it')
  {
    var bucket, pos := it.bucket, it.pos + 1;
    while pos == |buckets[bucket]|
      invariant bucket < |buckets| && 0 <= pos <= |buckets[bucket]|
      invariant Rest(buckets, it) == buckets[bucket][pos..] + Flat(buckets[bucket + 1..])
      decreases |buckets| - bucket
    {
      assert buckets[bucket][pos..] == [];
      bucket := bucket + 1;
      if bucket >= |buckets| {
        NothingLeft(buckets);
        return None;
      }
      BucketThenRest(buckets, bucket);
      pos := 0;
      assert buckets[bucket][0..] == buckets[bucket];
    }
    var b := buckets[bucket];
    assert b[pos..] == [b[pos]] + b[pos + 1..];
    return Some((Iterator(bucket, pos), b[pos]));
  }
}
