/** The block allocator of threads/malloc.c: descriptors for block sizes, free lists of block
    addresses, and an arena header at the start of each page that holds blocks. */
module Malloc {
  import opened Bitmaps
  import opened Palloc

  const PGSIZE: nat := 4096
  /** sizeof (struct arena): magic, desc and free_cnt. */
  const ARENA: nat := 12
  const DESCS: nat := 7
  const WORD: nat := 0x1_0000_0000

  /** An arena that is divided into blocks of one descriptor, or the header of a big block. */
  datatype Arena = Normal(d: nat, freeCnt: nat) | Big(pageCnt: nat)

  /** The headers by page number, and the free list of each descriptor. */
  datatype Heap = Heap(arenas: map<nat, Arena>, free: seq<seq<nat>>)

  // ----- Addresses --------------------------------------------------------------------------------

  function BlockSize(d: nat): (n: nat)
    ensures n >= 16
  {
    if d == 0 then 16 else 2 * BlockSize(d - 1)
  }

  function PerArena(d: nat): nat {
    Quotient(PGSIZE - ARENA, BlockSize(d))
  }

  /** arena_to_block. */
  function Addr(page: nat, k: nat, d: nat): nat {
    page * PGSIZE + ARENA + k * BlockSize(d)
  }

  /** block_to_arena rounds an address down to its page. */
  function PageOf(a: nat): nat {
    a / PGSIZE
  }

  function Index(a: nat, d: nat): nat {
    if a % PGSIZE >= ARENA then Quotient(a % PGSIZE - ARENA, BlockSize(d)) else 0
  }

  function Quotient(a: nat, n: nat): (q: nat)
    requires n > 0
    ensures q == a / n && a == q * n + a % n
  {
    QuotientIsNat(a, n, a / n);
    a / n
  }

  lemma QuotientIsNat(a: nat, n: nat, q: int)
    requires n > 0 && q == a / n
    ensures q >= 0 && a == q * n + a % n
  {
    if q < 0 {
      Times(q, -1, n);
    }
  }

  lemma Times(x: int, y: int, n: nat)
    requires x <= y
    ensures x * n <= y * n
  {
  }

  /** The alignment that block_to_arena asserts, and that the block lies in the page. */
  predicate IsBlock(a: nat, d: nat) {
    a % PGSIZE >= ARENA && (a % PGSIZE - ARENA) % BlockSize(d) == 0 && Index(a, d) < PerArena(d)
  }

  lemma FitsInPage(n: nat, k: nat, per: nat)
    requires n > 0 && per == (PGSIZE - ARENA) / n && k < per
    ensures 0 <= k * n && k * n + n <= PGSIZE - ARENA && (k * n) / n == k && (k * n) % n == 0
  {
    Multiples(n, k, per);
    DivMultiple(n, k);
  }

  lemma Multiples(n: nat, k: nat, per: nat)
    requires n > 0 && k < per && per == (PGSIZE - ARENA) / n
    ensures k * n + n <= PGSIZE - ARENA
  {
    assert per * n <= PGSIZE - ARENA;
    assert (k + 1) * n <= per * n;
  }

  /** An arena has as many blocks as fit on its page behind the header. */
  lemma ArenaIsFull(d: nat, n: nat)
    ensures n <= PerArena(d) <==> ARENA + n * BlockSize(d) <= PGSIZE
  {
    var (q, b) := (PerArena(d), BlockSize(d));
    hide BlockSize;
    if n <= q {
      Times(n, q, b);
    } else {
      Times(q + 1, n, b);
    }
  }

  lemma DivMultiple(n: nat, k: nat)
    requires n > 0
    ensures (k * n) / n == k && (k * n) % n == 0
  {
    var a := k * n;
    Unique(a, n, a / n, a % n, k);
  }

  /** Division with remainder has one answer. */
  lemma Unique(a: nat, n: nat, q: int, r: int, k: int)
    requires a == q * n + r && 0 <= r < n && a == k * n
    ensures q == k && r == 0
  {
    if q < k {
      Times(q + 1, k, n);
    } else if q > k {
      Times(k + 1, q, n);
    }
  }

  lemma PageArithmetic(page: nat, o: nat)
    requires o < PGSIZE
    ensures (page * PGSIZE + o) / PGSIZE == page && (page * PGSIZE + o) % PGSIZE == o
  {
  }

  /** block_to_arena undoes arena_to_block. */
  lemma BlockOfArena(page: nat, k: nat, d: nat)
    requires k < PerArena(d)
    ensures var a := Addr(page, k, d); PageOf(a) == page && IsBlock(a, d) && Index(a, d) == k
  {
    FitsInPage(BlockSize(d), k, PerArena(d));
    PageArithmetic(page, ARENA + k * BlockSize(d));
  }

  /** An aligned address is the address of the block with its index. */
  lemma AddressOfBlock(a: nat, d: nat)
    requires IsBlock(a, d)
    ensures a == Addr(PageOf(a), Index(a, d), d)
  {
    hide BlockSize;
  }

  // ----- Invariants -------------------------------------------------------------------------------

  predicate Distinct(s: seq<nat>) {
    forall i, j :: 0 <= i < j < |s| ==> s[i] != s[j]
  }

  function PagesOf(x: Arena): nat {
    if x.Normal? then 1 else x.pageCnt
  }

  /** The arenas lie apart from each other, on pages that the page allocator has given out. */
  ghost predicate Spans(arenas: map<nat, Arena>, used: set<nat>) {
    && (forall p | p in arenas :: p > 0 && PagesOf(arenas[p]) > 0 && Range(p, PagesOf(arenas[p])) <= used)
    && (forall p, q | p in arenas && q in arenas && p < q :: p + PagesOf(arenas[p]) <= q)
    && (forall p | p in arenas :: arenas[p].Normal? ==> arenas[p].d < DESCS)
  }

  predicate OnArena(arenas: map<nat, Arena>, a: nat, d: nat) {
    PageOf(a) in arenas && arenas[PageOf(a)].Normal? && arenas[PageOf(a)].d == d && IsBlock(a, d)
  }

  /** A free list holds blocks of its descriptor's arenas, once each. */
  ghost predicate Lists(arenas: map<nat, Arena>, free: seq<seq<nat>>) {
    && |free| == DESCS
    && (forall d | 0 <= d < DESCS :: Distinct(free[d]))
    && (forall d, a | 0 <= d < DESCS && a in free[d] :: OnArena(arenas, a, d))
  }

  /** The indices of the blocks of a page that are on a free list. */
  function FreeIdx(free: seq<nat>, page: nat, d: nat): set<nat> {
    set k | k in Range(0, PerArena(d)) && Addr(page, k, d) in free
  }

  /** An arena's free_cnt is the number of its blocks on its descriptor's free list. */
  ghost predicate Counts(arenas: map<nat, Arena>, free: seq<seq<nat>>)
    requires |free| == DESCS
  {
    forall p | p in arenas && arenas[p].Normal? && arenas[p].d < DESCS ::
      arenas[p].freeCnt == |FreeIdx(free[arenas[p].d], p, arenas[p].d)|
  }

  /** Arenas other than one that is being worked on have a block in use. */
  ghost predicate InUse(arenas: map<nat, Arena>, except: nat) {
    forall p | p in arenas && p != except && arenas[p].Normal? :: arenas[p].freeCnt < PerArena(arenas[p].d)
  }

  ghost predicate WeakInv(h: Heap, used: set<nat>) {
    Spans(h.arenas, used) && Lists(h.arenas, h.free) && Counts(h.arenas, h.free)
  }

  /** What holds between calls; page 0 is no arena. */
  ghost predicate HeapInv(h: Heap, used: set<nat>) {
    WeakInv(h, used) && InUse(h.arenas, 0)
  }

  // ----- Blocks that are handed out ---------------------------------------------------------------

  /** A block that malloc has returned and that has not been freed: it is on no free list. */
  predicate IsLive(h: Heap, a: nat)
    requires |h.free| == DESCS
  {
    PageOf(a) in h.arenas &&
    match h.arenas[PageOf(a)]
    case Normal(d, _) => IsBlock(a, d) && d < DESCS && a !in h.free[d]
    case Big(_) => a % PGSIZE == ARENA
  }

  /** block_size. */
  function Extent(h: Heap, a: nat): nat
    requires |h.free| == DESCS && IsLive(h, a)
  {
    match h.arenas[PageOf(a)]
    case Normal(d, _) => BlockSize(d)
    case Big(n) => if PGSIZE * n >= a % PGSIZE then PGSIZE * n - a % PGSIZE else 0
  }

  /** One block more is handed out, and the others are as they were. */
  ghost predicate GotBlock(h: Heap, h': Heap, p: nat)
    requires |h.free| == |h'.free| == DESCS
  {
    && p != 0 && !IsLive(h, p) && IsLive(h', p)
    && (forall x :: IsLive(h', x) <==> IsLive(h, x) || x == p)
    && (forall x | IsLive(h, x) :: Extent(h', x) == Extent(h, x))
  }

  /** Blocks that are handed out do not overlap each other. */
  lemma LiveBlocksApart(h: Heap, used: set<nat>, a: nat, b: nat)
    requires HeapInv(h, used) && IsLive(h, a) && IsLive(h, b) && a < b
    ensures a + Extent(h, a) <= b
  {
    var p: nat, q: nat := PageOf(a), PageOf(b);
    InsidePages(h, used, a);
    if p == q {
      if h.arenas[p].Normal? {
        var d := h.arenas[p].d;
        AddressOfBlock(a, d);
        AddressOfBlock(b, d);
        NextBlock(Index(a, d), Index(b, d), BlockSize(d));
      }
    } else {
      assert p + PagesOf(h.arenas[p]) <= q;
    }
  }

  lemma NextBlock(i: nat, j: nat, n: nat)
    requires i * n < j * n
    ensures i * n + n <= j * n
  {
    if j <= i {
      Times(j, i, n);
    } else {
      Times(i + 1, j, n);
    }
  }

  /** A block lies inside its arena's pages, behind the header. */
  lemma InsidePages(h: Heap, used: set<nat>, a: nat)
    requires HeapInv(h, used) && IsLive(h, a)
    ensures var p: nat := PageOf(a); p * PGSIZE + ARENA <= a && a + Extent(h, a) <= (p + PagesOf(h.arenas[p])) * PGSIZE
  {
    var p: nat := PageOf(a);
    if h.arenas[p].Normal? {
      var d := h.arenas[p].d;
      AddressOfBlock(a, d);
      FitsInPage(BlockSize(d), Index(a, d), PerArena(d));
    }
  }

  // ----- What the sections of malloc and free do ---------------------------------------------------

  function BlocksOf(page: nat, d: nat, n: nat): seq<nat> {
    seq(n, k requires 0 <= k => Addr(page, k, d))
  }

  /** A new arena: all its blocks go on the free list. */
  function WithArena(h: Heap, page: nat, d: nat): Heap
    requires d < |h.free|
  {
    Heap(h.arenas[page := Normal(d, PerArena(d))], h.free[d := h.free[d] + BlocksOf(page, d, PerArena(d))])
  }

  /** The first block of a free list is handed out. */
  function Took(h: Heap, d: nat): Heap
    requires d < |h.free| && h.free[d] != [] && OnArena(h.arenas, h.free[d][0], d) && h.arenas[PageOf(h.free[d][0])].freeCnt > 0
  {
    var p := PageOf(h.free[d][0]);
    Heap(h.arenas[p := Normal(d, h.arenas[p].freeCnt - 1)], h.free[d := h.free[d][1..]])
  }

  /** A block goes back on its free list. */
  function Gave(h: Heap, a: nat, d: nat): Heap
    requires d < |h.free| && OnArena(h.arenas, a, d)
  {
    Heap(h.arenas[PageOf(a) := Normal(d, h.arenas[PageOf(a)].freeCnt + 1)], h.free[d := [a] + h.free[d]])
  }

  /** The blocks of s that are not on a page, in order. */
  function OffPage(s: seq<nat>, page: nat): (r: seq<nat>)
    ensures forall a :: a in r <==> a in s && PageOf(a) != page
    ensures Distinct(s) ==> Distinct(r)
  {
    if s == [] then []
    else
      var rest := OffPage(s[1..], page);
      assert forall a :: a in s <==> a == s[0] || a in s[1..];
      if PageOf(s[0]) == page then rest else [s[0]] + rest
  }

  /** An arena with no block in use: its blocks leave the free list, and the page is given back. */
  function Dropped(h: Heap, page: nat, d: nat): Heap
    requires d < |h.free|
  {
    Heap(h.arenas - {page}, h.free[d := OffPage(h.free[d], page)])
  }

  lemma NewArenaLists(h: Heap, used: set<nat>, page: nat, d: nat)
    requires WeakInv(h, used) && d < DESCS && page !in h.arenas
    ensures Lists(WithArena(h, page, d).arenas, WithArena(h, page, d).free)
    ensures forall a :: a in BlocksOf(page, d, PerArena(d)) <==> PageOf(a) == page && IsBlock(a, d)
  {
    BlocksOfPage(page, d);
    var b := BlocksOf(page, d, PerArena(d));
    hide IsBlock, PageOf, Index, Addr, BlocksOf;
    assert forall a | a in h.free[d] :: OnArena(h.arenas, a, d) && PageOf(a) != page;
    Concatenation(h.free[d], b);
  }

  lemma BlocksOfPage(page: nat, d: nat)
    ensures forall a :: a in BlocksOf(page, d, PerArena(d)) <==> PageOf(a) == page && IsBlock(a, d)
    ensures Distinct(BlocksOf(page, d, PerArena(d)))
  {
    var n, b := PerArena(d), BlocksOf(page, d, PerArena(d));
    forall k | 0 <= k < n
      ensures PageOf(b[k]) == page && IsBlock(b[k], d) && Index(b[k], d) == k
    {
      BlockOfArena(page, k, d);
    }
    forall a | PageOf(a) == page && IsBlock(a, d)
      ensures a in b
    {
      AddressOfBlock(a, d);
      assert b[Index(a, d)] == a;
    }
    DistinctByIndex(b, d);
  }

  lemma DistinctByIndex(b: seq<nat>, d: nat)
    requires forall k | 0 <= k < |b| :: Index(b[k], d) == k
    ensures Distinct(b)
  {
    hide Index;
    forall i, j | 0 <= i < j < |b|
      ensures b[i] != b[j]
    {
      assert Index(b[i], d) == i && Index(b[j], d) == j;
    }
  }

  lemma Concatenation(s: seq<nat>, t: seq<nat>)
    requires Distinct(s) && Distinct(t) && forall a | a in s :: a !in t
    ensures Distinct(s + t) && forall a :: a in s + t <==> a in s || a in t
  {
    var u := s + t;
    forall i, j | 0 <= i < j < |u|
      ensures u[i] != u[j]
    {
      if i < |s| <= j {
        assert u[i] in s && u[j] in t;
      }
    }
  }

  lemma NewArenaKeeps(h: Heap, used: set<nat>, page: nat, d: nat)
    requires HeapInv(h, used) && d < DESCS && page !in used && page > 0
    ensures page !in h.arenas
    ensures var h' := WithArena(h, page, d);
      && WeakInv(h', used + {page}) && InUse(h'.arenas, page)
      && (forall a :: IsLive(h', a) <==> IsLive(h, a))
      && (forall a | IsLive(h, a) :: Extent(h', a) == Extent(h, a))
  {
    hide *;
    NotAnArena(h, used, page);
    NewArenaLists(h, used, page, d);
    NewArenaCounts(h, used, page, d);
    SpansOf(h, used);
    NewArenaPages(page, d, used);
    NewSpan(h.arenas, used, page, Normal(d, PerArena(d)), Range(page, 1));
    WithArenaIs(h, page, d);
    NewArenaInUse(h, used, page, d);
    NewArenaLive(h, page, d, WithArena(h, page, d));
    WeakOf(WithArena(h, page, d), used + {page});
  }

  lemma NotAnArena(h: Heap, used: set<nat>, page: nat)
    requires HeapInv(h, used) && page !in used
    ensures page !in h.arenas && WeakInv(h, used) && |h.free| == DESCS
  {
    hide Lists, Counts;
    InvIsWeak(h, used);
    assert page in h.arenas ==> page in Range(page, PagesOf(h.arenas[page]));
  }

  lemma SpansOf(h: Heap, used: set<nat>)
    requires WeakInv(h, used)
    ensures Spans(h.arenas, used)
  {
    hide Spans, Lists, Counts;
  }

  lemma WeakOf(h: Heap, used: set<nat>)
    requires Spans(h.arenas, used) && Lists(h.arenas, h.free) && Counts(h.arenas, h.free)
    ensures WeakInv(h, used)
  {
    hide Spans, Lists, Counts;
  }

  lemma NewArenaPages(page: nat, d: nat, used: set<nat>)
    requires page !in used
    ensures PagesOf(Normal(d, PerArena(d))) == 1 && Range(page, 1) == {page} && Range(page, 1) !! used
  {
  }

  lemma NewArenaInUse(h: Heap, used: set<nat>, page: nat, d: nat)
    requires HeapInv(h, used) && d < DESCS
    ensures InUse(h.arenas[page := Normal(d, PerArena(d))], page)
  {
    hide Lists, Counts, Range, PerArena;
  }

  lemma NewArenaLive(h: Heap, page: nat, d: nat, h': Heap)
    requires |h.free| == DESCS && page !in h.arenas && d < DESCS
    requires h'.arenas == h.arenas[page := Normal(d, PerArena(d))] && h'.free == h.free[d := h.free[d] + BlocksOf(page, d, PerArena(d))]
    requires forall a :: a in BlocksOf(page, d, PerArena(d)) <==> PageOf(a) == page && IsBlock(a, d)
    ensures forall a :: IsLive(h', a) <==> IsLive(h, a)
    ensures forall a | IsLive(h, a) :: Extent(h', a) == Extent(h, a)
  {
    hide PageOf, IsBlock, BlocksOf, PerArena, BlockSize;
  }

  lemma WithArenaIs(h: Heap, page: nat, d: nat)
    requires d < |h.free|
    ensures var h' := WithArena(h, page, d);
      h'.arenas == h.arenas[page := Normal(d, PerArena(d))] && h'.free == h.free[d := h.free[d] + BlocksOf(page, d, PerArena(d))]
  {
  }

  /** Pages that nobody has cannot be part of an arena. */
  lemma NewSpan(arenas: map<nat, Arena>, used: set<nat>, page: nat, x: Arena, pages: set<nat>)
    requires Spans(arenas, used) && page > 0 && PagesOf(x) > 0 && pages == Range(page, PagesOf(x)) && pages !! used
    requires x.Normal? ==> x.d < DESCS
    ensures Spans(arenas[page := x], used + pages)
  {
    forall p | p in arenas
      ensures p != page && (p < page ==> p + PagesOf(arenas[p]) <= page) && (p > page ==> page + PagesOf(x) <= p)
    {
      assert p in used && page in pages && p !in pages && page !in Range(p, PagesOf(arenas[p]));
    }
  }

  lemma NewArenaCounts(h: Heap, used: set<nat>, page: nat, d: nat)
    requires WeakInv(h, used) && d < DESCS && page !in h.arenas
    requires forall a :: a in BlocksOf(page, d, PerArena(d)) <==> PageOf(a) == page && IsBlock(a, d)
    ensures Counts(WithArena(h, page, d).arenas, WithArena(h, page, d).free)
  {
    var h' := WithArena(h, page, d);
    forall p | p in h'.arenas && h'.arenas[p].Normal? && h'.arenas[p].d < DESCS
      ensures h'.arenas[p].freeCnt == |FreeIdx(h'.free[h'.arenas[p].d], p, h'.arenas[p].d)|
    {
      var e := h'.arenas[p].d;
      if p == page {
        forall k | k in Range(0, PerArena(d))
          ensures Addr(page, k, d) in h'.free[d]
        {
          BlockOfArena(page, k, d);
        }
        assert FreeIdx(h'.free[d], page, d) == Range(0, PerArena(d));
        RangeSize(0, PerArena(d));
      } else {
        forall k | k in Range(0, PerArena(e))
          ensures Addr(p, k, e) in h'.free[e] <==> Addr(p, k, e) in h.free[e]
        {
          BlockOfArena(p, k, e);
        }
        assert FreeIdx(h'.free[e], p, e) == FreeIdx(h.free[e], p, e);
      }
    }
  }

  lemma FirstAndRest(s: seq<nat>)
    requires s != [] && Distinct(s)
    ensures Distinct(s[1..]) && forall a :: a in s[1..] <==> a in s && a != s[0]
  {
    assert s == [s[0]] + s[1..];
  }

  /** Handing out the first block of a free list. */
  lemma TookKeeps(h: Heap, used: set<nat>, d: nat)
    requires WeakInv(h, used) && d < DESCS && h.free[d] != [] && InUse(h.arenas, PageOf(h.free[d][0]))
    ensures var a := h.free[d][0];
      && OnArena(h.arenas, a, d) && h.arenas[PageOf(a)].freeCnt > 0 && !IsLive(h, a)
      && HeapInv(Took(h, d), used)
      && IsLive(Took(h, d), a) && Extent(Took(h, d), a) == BlockSize(d)
      && (forall x :: IsLive(Took(h, d), x) <==> IsLive(h, x) || x == a)
      && (forall x | IsLive(h, x) :: Extent(Took(h, d), x) == Extent(h, x))
  {
    var a := h.free[d][0];
    assert OnArena(h.arenas, a, d);
    BlockCounted(h.free[d], a, d);
    FirstAndRest(h.free[d]);
    CountBound(h.free[d], PageOf(a), d);
    hide IsBlock, Index, Addr, FreeIdx, Distinct, Range, PageOf, BlockSize, PerArena;
    assert h.arenas[PageOf(a)].d == d && h.arenas[PageOf(a)].freeCnt > 0;
    var h' := Took(h, d);
    TookIs(h, d, a, h');
    hide Took;
    ChangedCounts(h, h', PageOf(a), d, a);
    SpansSame(h.arenas, h'.arenas, used);
    ListsChange(h.arenas, h.free, h'.arenas, h'.free, d);
    LiveChange(h, h', PageOf(a), d, a);
    hide Spans, Lists, Counts;
  }

  lemma TookIs(h: Heap, d: nat, a: nat, h': Heap)
    requires d < |h.free| && h.free[d] != [] && a == h.free[d][0]
    requires OnArena(h.arenas, a, d) && h.arenas[PageOf(a)].freeCnt > 0 && h' == Took(h, d)
    ensures |h'.free| == |h.free| && h'.free[d] == h.free[d][1..] && forall e | 0 <= e < |h.free| && e != d :: h'.free[e] == h.free[e]
    ensures h'.arenas == h.arenas[PageOf(a) := Normal(d, h.arenas[PageOf(a)].freeCnt - 1)]
  {
    hide PageOf, IsBlock;
  }

  lemma ListsChange(arenas: map<nat, Arena>, free: seq<seq<nat>>, arenas': map<nat, Arena>, free': seq<seq<nat>>, d: nat)
    requires Lists(arenas, free) && d < DESCS && |free'| == |free|
    requires forall e | 0 <= e < DESCS && e != d :: free'[e] == free[e]
    requires Distinct(free'[d]) && forall a | a in free'[d] :: OnArena(arenas, a, d)
    requires forall e, a | 0 <= e < DESCS && a in free'[e] && OnArena(arenas, a, e) :: OnArena(arenas', a, e)
    ensures Lists(arenas', free')
  {
    hide Distinct, OnArena;
  }

  /** Only the block that enters or leaves a free list changes hands. */
  lemma LiveChange(h: Heap, h': Heap, page: nat, d: nat, a: nat)
    requires |h.free| == |h'.free| == DESCS && d < DESCS && OnArena(h.arenas, a, d) && page == PageOf(a)
    requires h'.arenas.Keys == h.arenas.Keys && h'.arenas[page].Normal? && h'.arenas[page].d == d
    requires forall p | p in h.arenas && p != page :: h'.arenas[p] == h.arenas[p]
    requires forall e | 0 <= e < DESCS && e != d :: h'.free[e] == h.free[e]
    requires forall x | x != a :: x in h'.free[d] <==> x in h.free[d]
    ensures forall x | x != a :: IsLive(h', x) <==> IsLive(h, x)
    ensures forall x | IsLive(h, x) && IsLive(h', x) :: Extent(h', x) == Extent(h, x)
    ensures IsLive(h, a) <==> a !in h.free[d]
    ensures IsLive(h', a) <==> a !in h'.free[d]
    ensures IsLive(h', a) ==> Extent(h', a) == BlockSize(d)
  {
    hide IsBlock, PageOf, BlockSize;
  }

  lemma SpansSame(arenas: map<nat, Arena>, arenas': map<nat, Arena>, used: set<nat>)
    requires Spans(arenas, used) && arenas'.Keys == arenas.Keys
    requires forall p | p in arenas :: PagesOf(arenas'[p]) == PagesOf(arenas[p]) && (arenas'[p].Normal? ==> arenas'[p].d < DESCS)
    ensures Spans(arenas', used)
  {
    hide Range;
  }

  /** A block on the free list counts for its arena. */
  lemma BlockCounted(s: seq<nat>, a: nat, d: nat)
    requires a in s && IsBlock(a, d)
    ensures Index(a, d) in FreeIdx(s, PageOf(a), d) && |FreeIdx(s, PageOf(a), d)| > 0
  {
    AddressOfBlock(a, d);
    assert Index(a, d) in Range(0, PerArena(d));
  }

  lemma CountBound(s: seq<nat>, page: nat, d: nat)
    ensures |FreeIdx(s, page, d)| <= PerArena(d)
    ensures |FreeIdx(s, page, d)| == PerArena(d) ==> forall a | PageOf(a) == page && IsBlock(a, d) :: a in s
  {
    RangeSize(0, PerArena(d));
    SubsetSize(FreeIdx(s, page, d), Range(0, PerArena(d)));
    if |FreeIdx(s, page, d)| == PerArena(d) {
      forall a | PageOf(a) == page && IsBlock(a, d)
        ensures a in s
      {
        AddressOfBlock(a, d);
        assert Index(a, d) in FreeIdx(s, page, d);
      }
    }
  }

  lemma {:induction false} SubsetSize(s: set<nat>, t: set<nat>)
    requires s <= t
    ensures |s| <= |t| && (|s| == |t| ==> s == t)
  {
    if s != {} {
      var x :| x in s;
      SubsetSize(s - {x}, t - {x});
    }
  }

  /** One block enters or leaves a free list, and its arena's count follows. */
  lemma ChangedCounts(h: Heap, h': Heap, page: nat, d: nat, a: nat)
    requires |h.free| == |h'.free| == DESCS && Counts(h.arenas, h.free) && d < DESCS && OnArena(h.arenas, a, d) && page == PageOf(a)
    requires h'.arenas.Keys == h.arenas.Keys && h'.arenas[page].Normal? && h'.arenas[page].d == d
    requires forall p | p in h.arenas && p != page :: h'.arenas[p] == h.arenas[p]
    requires forall e | 0 <= e < DESCS && e != d :: h'.free[e] == h.free[e]
    requires forall x | x != a :: x in h'.free[d] <==> x in h.free[d]
    requires a in h.free[d] <==> a !in h'.free[d]
    requires h'.arenas[page].freeCnt == if a in h.free[d] then h.arenas[page].freeCnt - 1 else h.arenas[page].freeCnt + 1
    ensures Counts(h'.arenas, h'.free)
  {
    forall p | p in h'.arenas && h'.arenas[p].Normal? && h'.arenas[p].d < DESCS
      ensures h'.arenas[p].freeCnt == |FreeIdx(h'.free[h'.arenas[p].d], p, h'.arenas[p].d)|
    {
      IndexChange(h.free[h'.arenas[p].d], h'.free[h'.arenas[p].d], p, h'.arenas[p].d, a, d);
    }
  }

  lemma IndexChange(s: seq<nat>, s': seq<nat>, p: nat, e: nat, a: nat, d: nat)
    requires IsBlock(a, d) && (e != d ==> s' == s)
    requires e == d ==> (forall x | x != a :: x in s' <==> x in s) && (a in s <==> a !in s')
    ensures var f, f' := FreeIdx(s, p, e), FreeIdx(s', p, e);
      |f'| == if e != d || p != PageOf(a) then |f| else if a in s then |f| - 1 else |f| + 1
  {
    var f, f', i := FreeIdx(s, p, e), FreeIdx(s', p, e), Index(a, d);
    if e == d {
      forall k | k in Range(0, PerArena(d))
        ensures Addr(p, k, d) == a <==> p == PageOf(a) && k == i
      {
        BlockOfArena(p, k, d);
        AddressOfBlock(a, d);
      }
      if p == PageOf(a) {
        assert i in Range(0, PerArena(d));
        if a in s {
          assert f' == f - {i};
        } else {
          assert f' == f + {i};
        }
      } else {
        assert f' == f;
      }
    }
  }

  /** A block goes back on its free list; its arena may now have no block in use. */
  lemma GaveKeeps(h: Heap, used: set<nat>, a: nat, d: nat)
    requires HeapInv(h, used) && d < DESCS && OnArena(h.arenas, a, d) && IsLive(h, a)
    ensures var h' := Gave(h, a, d);
      && WeakInv(h', used) && InUse(h'.arenas, PageOf(a)) && h'.arenas[PageOf(a)].freeCnt <= PerArena(d)
      && (forall x :: IsLive(h', x) <==> IsLive(h, x) && x != a)
      && (forall x | IsLive(h', x) :: Extent(h', x) == Extent(h, x))
  {
    OneMore(h.free[d], a);
    hide IsBlock, Index, Addr, FreeIdx, Distinct, Range, PageOf, BlockSize, PerArena;
    var h' := Gave(h, a, d);
    GaveIs(h, a, d, h');
    hide Gave;
    ChangedCounts(h, h', PageOf(a), d, a);
    SpansSame(h.arenas, h'.arenas, used);
    ListsChange(h.arenas, h.free, h'.arenas, h'.free, d);
    LiveChange(h, h', PageOf(a), d, a);
    assert h'.arenas[PageOf(a)].freeCnt == |FreeIdx(h'.free[d], PageOf(a), d)|;
    CountBound(h'.free[d], PageOf(a), d);
    hide Spans, Lists, Counts;
  }

  lemma OneMore(s: seq<nat>, a: nat)
    requires Distinct(s) && a !in s
    ensures Distinct([a] + s) && forall x :: x in [a] + s <==> x in s || x == a
  {
  }

  lemma GaveIs(h: Heap, a: nat, d: nat, h': Heap)
    requires d < |h.free| && OnArena(h.arenas, a, d) && h' == Gave(h, a, d)
    ensures |h'.free| == |h.free| && h'.free[d] == [a] + h.free[d] && forall e | 0 <= e < |h.free| && e != d :: h'.free[e] == h.free[e]
    ensures h'.arenas == h.arenas[PageOf(a) := Normal(d, h.arenas[PageOf(a)].freeCnt + 1)]
  {
    hide PageOf, IsBlock;
  }

  /** An arena all of whose blocks are on the free list has none that is handed out. */
  lemma DroppedKeeps(h: Heap, used: set<nat>, page: nat, d: nat)
    requires WeakInv(h, used) && InUse(h.arenas, page) && d < DESCS
    requires page in h.arenas && h.arenas[page] == Normal(d, PerArena(d))
    ensures var h' := Dropped(h, page, d);
      && HeapInv(h', used - {page})
      && (forall x :: IsLive(h', x) <==> IsLive(h, x))
      && (forall x | IsLive(h, x) :: PageOf(x) != page && Extent(h', x) == Extent(h, x))
  {
    CountBound(h.free[d], page, d);
    DroppedCounts(h, page, d);
    DroppedSpans(h.arenas, used, page);
    DroppedLists(h, page, d);
    DroppedLive(h, page, d);
    hide *;
    DroppedInUse(h, page, d);
    InvOf(Dropped(h, page, d), used - {page});
  }

  lemma InvOf(h: Heap, used: set<nat>)
    requires Spans(h.arenas, used) && Lists(h.arenas, h.free) && Counts(h.arenas, h.free) && InUse(h.arenas, 0)
    ensures HeapInv(h, used)
  {
    hide Spans, Lists, Counts, InUse;
  }

  lemma DroppedInUse(h: Heap, page: nat, d: nat)
    requires d < |h.free| && InUse(h.arenas, page)
    ensures InUse(Dropped(h, page, d).arenas, 0) && Dropped(h, page, d).arenas == h.arenas - {page}
  {
    hide PerArena, OffPage;
  }

  lemma DroppedLists(h: Heap, page: nat, d: nat)
    requires Lists(h.arenas, h.free) && d < DESCS && page in h.arenas && h.arenas[page].Normal? && h.arenas[page].d == d
    ensures Lists(Dropped(h, page, d).arenas, Dropped(h, page, d).free)
  {
    var h' := Dropped(h, page, d);
    hide Distinct, IsBlock, PageOf;
    forall e, a | 0 <= e < DESCS && a in h'.free[e]
      ensures OnArena(h'.arenas, a, e)
    {
      assert a in h.free[e] && OnArena(h.arenas, a, e);
    }
  }

  lemma DroppedLive(h: Heap, page: nat, d: nat)
    requires |h.free| == DESCS && d < DESCS && page in h.arenas && h.arenas[page].Normal? && h.arenas[page].d == d
    requires forall a | PageOf(a) == page && IsBlock(a, d) :: a in h.free[d]
    ensures forall x :: IsLive(Dropped(h, page, d), x) <==> IsLive(h, x)
    ensures forall x | IsLive(h, x) :: PageOf(x) != page && Extent(Dropped(h, page, d), x) == Extent(h, x)
  {
    hide Distinct, IsBlock, PageOf, BlockSize;
  }

  lemma DroppedSpans(arenas: map<nat, Arena>, used: set<nat>, page: nat)
    requires Spans(arenas, used) && page in arenas && PagesOf(arenas[page]) > 0
    ensures Spans(arenas - {page}, used - Range(page, PagesOf(arenas[page])))
    ensures Range(page, 1) == {page}
  {
  }

  lemma DroppedCounts(h: Heap, page: nat, d: nat)
    requires |h.free| == DESCS && Counts(h.arenas, h.free) && d < DESCS
    ensures Counts(Dropped(h, page, d).arenas, Dropped(h, page, d).free)
  {
    var h' := Dropped(h, page, d);
    forall p | p in h'.arenas && h'.arenas[p].Normal? && h'.arenas[p].d < DESCS
      ensures h'.arenas[p].freeCnt == |FreeIdx(h'.free[h'.arenas[p].d], p, h'.arenas[p].d)|
    {
      var e := h'.arenas[p].d;
      forall k | k in Range(0, PerArena(e))
        ensures Addr(p, k, e) in h'.free[e] <==> Addr(p, k, e) in h.free[e]
      {
        BlockOfArena(p, k, e);
      }
      assert FreeIdx(h'.free[e], p, e) == FreeIdx(h.free[e], p, e);
    }
  }

  // ----- Big blocks -------------------------------------------------------------------------------

  function WithBig(h: Heap, page: nat, n: nat): Heap {
    h.(arenas := h.arenas[page := Big(n)])
  }

  function WithoutBig(h: Heap, page: nat): Heap {
    h.(arenas := h.arenas - {page})
  }

  lemma HeaderAddress(page: nat, a: nat)
    ensures PageOf(page * PGSIZE + ARENA) == page && (page * PGSIZE + ARENA) % PGSIZE == ARENA
    ensures PageOf(a) == page && a % PGSIZE == ARENA <==> a == page * PGSIZE + ARENA
  {
    PageArithmetic(page, ARENA);
  }

  lemma WithBigKeeps(h: Heap, used: set<nat>, page: nat, n: nat)
    requires HeapInv(h, used) && n > 0 && page > 0 && Range(page, n) !! used
    ensures var h', a := WithBig(h, page, n), page * PGSIZE + ARENA;
      && HeapInv(h', used + Range(page, n)) && !IsLive(h, a) && IsLive(h', a) && Extent(h', a) == n * PGSIZE - ARENA
      && (forall x :: IsLive(h', x) <==> IsLive(h, x) || x == a)
      && (forall x | IsLive(h, x) :: Extent(h', x) == Extent(h, x))
  {
    assert page !in h.arenas by {
      assert page in Range(page, n);
      assert page in h.arenas ==> page in Range(page, PagesOf(h.arenas[page]));
    }
    NewSpan(h.arenas, used, page, Big(n), Range(page, n));
    BigLists(h, page, n);
    BigLive(h, page, n);
    assert InUse(WithBig(h, page, n).arenas, 0);
    hide *;
    BigIs(h, page, n);
    InvOf(WithBig(h, page, n), used + Range(page, n));
  }

  lemma BigIs(h: Heap, page: nat, n: nat)
    ensures WithBig(h, page, n) == Heap(h.arenas[page := Big(n)], h.free)
  {
  }

  lemma BigLists(h: Heap, page: nat, n: nat)
    requires Lists(h.arenas, h.free) && Counts(h.arenas, h.free) && page !in h.arenas
    ensures Lists(WithBig(h, page, n).arenas, h.free) && Counts(WithBig(h, page, n).arenas, h.free)
  {
    hide Distinct, IsBlock, PageOf, FreeIdx;
    forall e, a | 0 <= e < DESCS && a in h.free[e]
      ensures OnArena(WithBig(h, page, n).arenas, a, e)
    {
      assert OnArena(h.arenas, a, e);
    }
  }

  lemma BigLive(h: Heap, page: nat, n: nat)
    requires |h.free| == DESCS && page !in h.arenas && n > 0
    ensures var h', a := WithBig(h, page, n), page * PGSIZE + ARENA;
      && !IsLive(h, a) && IsLive(h', a) && Extent(h', a) == n * PGSIZE - ARENA
      && (forall x :: IsLive(h', x) <==> IsLive(h, x) || x == a)
      && (forall x | IsLive(h, x) :: Extent(h', x) == Extent(h, x))
  {
    var h', a := WithBig(h, page, n), page * PGSIZE + ARENA;
    HeaderAddress(page, a);
    forall x
      ensures IsLive(h', x) <==> IsLive(h, x) || x == a
    {
      HeaderAddress(page, x);
    }
    hide PageOf, IsBlock, BlockSize;
  }

  lemma WithoutBigKeeps(h: Heap, used: set<nat>, a: nat)
    requires HeapInv(h, used) && IsLive(h, a) && h.arenas[PageOf(a)].Big?
    ensures var page := PageOf(a); var n, h' := h.arenas[page].pageCnt, WithoutBig(h, page);
      && HeapInv(h', used - Range(page, n))
      && (forall x :: IsLive(h', x) <==> IsLive(h, x) && x != a)
      && (forall x | IsLive(h', x) :: PageOf(x) != page && Extent(h', x) == Extent(h, x))
  {
    var page: nat := PageOf(a);
    var h' := WithoutBig(h, page);
    DroppedSpans(h.arenas, used, page);
    HeaderAddress(page, a);
    forall x
      ensures IsLive(h', x) <==> IsLive(h, x) && x != a
    {
      HeaderAddress(page, x);
    }
    hide IsBlock, Index, Addr, FreeIdx, Distinct, Range, PageOf, BlockSize, PerArena;
    assert forall e, x | 0 <= e < DESCS && x in h.free[e] :: OnArena(h.arenas, x, e) && OnArena(h'.arenas, x, e);
  }

  // ----- The size of a request --------------------------------------------------------------------

  /** DIV_ROUND_UP (size + sizeof *a, PGSIZE), in 32 bits. */
  function PagesFor(size: nat): nat {
    ((size + ARENA) % WORD + (PGSIZE - 1)) % WORD / PGSIZE
  }

  /** A request that is too big for the descriptors gets enough pages, or none at all, exactly when
      adding the header to it stays within 32 bits. Otherwise malloc asks for one page and returns
      a block that is too small. */
  lemma PagesSufficeIff(size: nat)
    requires 0 < size < WORD
    ensures PagesFor(size) == 0 || PagesFor(size) * PGSIZE >= size + ARENA <==> size + ARENA <= WORD
    ensures size + ARENA > WORD ==> PagesFor(size) == 1
    ensures PagesFor(size) == 0 <==> WORD - PGSIZE < size + ARENA <= WORD
    ensures size + ARENA <= WORD && PagesFor(size) > 0 ==> (PagesFor(size) - 1) * PGSIZE < size + ARENA
  {
    if size + ARENA + PGSIZE - 1 < WORD {
      assert PagesFor(size) == (size + ARENA + PGSIZE - 1) / PGSIZE;
    } else if size + ARENA <= WORD {
      assert PagesFor(size) == 0;
    }
  }

  /** Such a request exists. */
  lemma HugeRequestGetsOnePage()
    ensures PagesFor(0xFFFF_FFFF) == 1
  {
  }

  // ----- Where the pages are ----------------------------------------------------------------------

  /** Where each arena begins, and how many pages it has. */
  function Spread(arenas: map<nat, Arena>): map<nat, nat> {
    map p | p in arenas :: PagesOf(arenas[p])
  }

  /** The pages of all arenas. */
  ghost function PagesIn(spread: map<nat, nat>): set<nat> {
    set p, x | p in spread && x in Range(p, spread[p]) :: x
  }

  lemma SpreadOf(arenas: map<nat, Arena>, used: set<nat>)
    requires Spans(arenas, used)
    ensures PagesIn(Spread(arenas)) <= used
    ensures forall p, q | p in Spread(arenas) && q in Spread(arenas) && p != q ::
      Range(p, Spread(arenas)[p]) !! Range(q, Spread(arenas)[q])
  {
  }

  lemma SpreadSame(arenas: map<nat, Arena>, page: nat, x: Arena)
    requires page in arenas && PagesOf(x) == PagesOf(arenas[page])
    ensures Spread(arenas[page := x]) == Spread(arenas)
  {
  }

  lemma SpreadMore(arenas: map<nat, Arena>, page: nat, x: Arena)
    ensures Spread(arenas[page := x]) == Spread(arenas)[page := PagesOf(x)]
    ensures Spread(arenas - {page}) == Spread(arenas) - {page}
  {
  }

  /** Pages that come from the page allocator and go to an arena leave the other used pages as they were. */
  lemma PagesTaken(spread: map<nat, nat>, used: set<nat>, page: nat, n: nat)
    requires PagesIn(spread) <= used && Range(page, n) !! used && page !in spread
    ensures used + Range(page, n) - PagesIn(spread[page := n]) == used - PagesIn(spread)
  {
    var spread' := spread[page := n];
    assert forall p | p in spread :: p in spread' && spread'[p] == spread[p];
    assert page in spread' && spread'[page] == n;
  }

  lemma PagesGiven(spread: map<nat, nat>, used: set<nat>, page: nat)
    requires page in spread
    requires forall q | q in spread && q != page :: Range(page, spread[page]) !! Range(q, spread[q])
    ensures used - Range(page, spread[page]) - PagesIn(spread - {page}) == used - PagesIn(spread)
  {
    var spread' := spread - {page};
    assert forall p | p in spread && p != page :: p in spread' && spread'[p] == spread[p];
  }

  /** The descriptor with the smallest blocks that satisfy a request. */
  predicate Fits(d: nat, size: nat) {
    d < DESCS && BlockSize(d) >= size && forall e: nat | e < d :: BlockSize(e) < size
  }

  // ----- The allocator ----------------------------------------------------------------------------

  datatype Desc = Desc(blockSize: nat, blocksPerArena: nat)

  class Allocator {
    const pages: PageAllocator
    var descs: seq<Desc>
    var arenas: map<nat, Arena>
    var freeLists: seq<seq<nat>>

    ghost function State(): Heap
      reads this
    {
      Heap(arenas, freeLists)
    }

    ghost predicate Valid()
      reads this, pages.kernelMap.bits, pages.userMap.bits
    {
      && pages.Valid()
      && |descs| == DESCS && |freeLists| == DESCS
      && (forall d | 0 <= d < DESCS :: descs[d] == Desc(BlockSize(d), PerArena(d)))
      && HeapInv(State(), pages.KernelUsed())
    }

    /** What malloc does to pages: nothing, if it fails or finds a block in an arena that is there; else these
        pages, which were free, are a new arena with the block. */
    ghost predicate GotPages(p: nat, n: nat, before: map<nat, Arena>, used: set<nat>)
      requires pages.Valid()
      reads this, pages.kernelMap.bits
    {
      if p == 0 || PageOf(p) in before then Spread(arenas) == Spread(before) && pages.KernelUsed() == used
      else
        && Spread(arenas) == Spread(before)[PageOf(p) := n]
        && Range(PageOf(p), n) !! used && pages.KernelUsed() == used + Range(PageOf(p), n)
    }

    lemma NoPagesGot(n: nat, before: map<nat, Arena>, used: set<nat>)
      requires pages.Valid() && arenas == before && pages.KernelUsed() == used
      ensures GotPages(0, n, before, used)
    {
    }

    lemma PagesGot(p: nat, n: nat, before: map<nat, Arena>, used: set<nat>)
      requires pages.Valid() && p != 0 && PageOf(p) !in before && Spread(arenas) == Spread(before)[PageOf(p) := n]
      requires Range(PageOf(p), n) !! used && pages.KernelUsed() == used + Range(PageOf(p), n)
      ensures GotPages(p, n, before, used)
    {
    }

    /** The used pages that belong to no arena: other parts of the kernel have them. */
    ghost function Others(): set<nat>
      requires pages.Valid()
      reads this, pages.kernelMap.bits
    {
      pages.KernelUsed() - PagesIn(Spread(arenas))
    }

    /** malloc_init: the block sizes are the powers of two from 16 up to below half a page. */
    constructor (p: PageAllocator)
      requires p.Valid()
      ensures Valid() && pages == p && arenas == map[] && forall a :: !IsLive(State(), a)
    {
      pages, arenas := p, map[];
      descs, freeLists := [], [];
      new;
      var blockSize := 16;
      Sizes();
      while blockSize < PGSIZE / 2
        invariant |descs| == |freeLists| <= DESCS && blockSize == BlockSize(|descs|)
        invariant forall d | 0 <= d < |descs| :: descs[d] == Desc(BlockSize(d), PerArena(d)) && freeLists[d] == []
        invariant arenas == map[]
        decreases DESCS - |descs|
      {
        assert |descs| + 1 <= 10;
        descs := descs + [Desc(blockSize, (PGSIZE - ARENA) / blockSize)];
        freeLists := freeLists + [[]];
        blockSize := 2 * blockSize;
      }
    }

    /** The kernel's pool has no group of so many free pages. */
    ghost predicate NoGroup(n: nat, used: set<nat>) {
      var free := pages.Pool(false) - used;
      forall q: nat :: !(Range(q, n) <= free)
    }

    lemma NoGroupIs(n: nat, used: set<nat>)
      requires forall q: nat :: !(Range(q, n) <= pages.Pool(false) - used)
      ensures NoGroup(n, used)
    {
      var free := pages.Pool(false) - used;
      forall q: nat
        ensures !(Range(q, n) <= free)
      {
      }
    }

    /** A request is refused when there is no block on the free list of its descriptor and no free page to
        make more, or no group of free pages for a big block, or none is asked for. */
    ghost predicate Refused(size: nat, h: Heap, used: set<nat>)
      requires |h.free| == DESCS
    {
      if size == 0 then true
      else if size <= PGSIZE / 4 then
        (forall d: nat | Fits(d, size) :: h.free[d] == []) && NoGroup(1, used)
      else PagesFor(size) == 0 || NoGroup(PagesFor(size), used)
    }

    /** A request gets a block of its descriptor, from the free list unless that is empty; or a big block. */
    ghost predicate Served(size: nat, p: nat, h: Heap, h': Heap)
      requires |h.free| == |h'.free| == DESCS
    {
      && GotBlock(h, h', p)
      && (size + ARENA <= WORD ==> Extent(h', p) >= size)
      && (forall d: nat | Fits(d, size) :: Extent(h', p) == BlockSize(d) && (PageOf(p) in h.arenas <==> h.free[d] != []))
      && (size > PGSIZE / 4 ==> PageOf(p) !in h.arenas)
    }

    /** malloc. A null pointer is 0. */
    method Malloc(size: nat) returns (p: nat)
      requires Valid() && size < WORD
      modifies this`arenas, this`freeLists, pages.kernelMap.bits
      ensures Valid() && (size == 0 ==> p == 0)
      ensures if p == 0 then State() == old(State()) && Refused(size, State(), pages.KernelUsed())
              else Served(size, p, old(State()), State())
      ensures GotPages(p, if size <= PGSIZE / 4 then 1 else PagesFor(size), old(arenas), old(pages.KernelUsed()))
      ensures Others() == old(Others())
    {
      hide *;
      ValidParts();
      ghost var used, h := pages.KernelUsed(), State();
      OthersAre();
      if size == 0 {
        NoPagesGot(1, h.arenas, used);
        NothingAsked(h, used);
        OthersStay(0, 1, h, used);
        return 0;
      }
      var d := FindDesc(size);
      FitsOnce(d, size);
      if d == |descs| {
        p := MallocBig(size);
        ValidParts();
        OthersStay(p, PagesFor(size), h, used);
        BigAnswer(size, p, h, State(), used);
      } else {
        p := MallocBlock(d);
        ValidParts();
        OthersStay(p, 1, h, used);
        SmallAnswer(size, d, p, h, State(), used);
      }
      NoPagesIs(p, if size <= PGSIZE / 4 then 1 else PagesFor(size), h.arenas, used);
    }

    lemma NothingAsked(h: Heap, used: set<nat>)
      requires |h.free| == DESCS
      ensures Refused(0, h, used)
    {
    }

    lemma NoPagesIs(p: nat, n: nat, before: map<nat, Arena>, used: set<nat>)
      requires pages.Valid() && GotPages(p, n, before, used)
      ensures p == 0 ==> pages.KernelUsed() == used
    {
      hide PageOf, Spread, Range;
    }

    lemma BigAnswer(size: nat, p: nat, h: Heap, h': Heap, used: set<nat>)
      requires size > PGSIZE / 4 && |h.free| == |h'.free| == DESCS && forall d: nat :: !Fits(d, size)
      requires p == 0 ==> PagesFor(size) == 0 || NoGroup(PagesFor(size), used)
      requires p != 0 ==> GotBlock(h, h', p) && PageOf(p) !in h.arenas
      requires p != 0 && size + ARENA <= WORD ==> IsLive(h', p) && Extent(h', p) >= size
      ensures if p == 0 then Refused(size, h, used) else Served(size, p, h, h')
    {
      hide GotBlock, PageOf, Extent, Fits, NoGroup;
    }

    lemma SmallAnswer(size: nat, d: nat, p: nat, h: Heap, h': Heap, used: set<nat>)
      requires 0 < size <= PGSIZE / 4 && |h.free| == |h'.free| == DESCS && Fits(d, size) && forall e: nat | Fits(e, size) :: e == d
      requires p == 0 ==> h.free[d] == [] && NoGroup(1, used)
      requires p != 0 ==> GotBlock(h, h', p) && (PageOf(p) in h.arenas <==> h.free[d] != [])
      requires p != 0 ==> IsLive(h', p) && Extent(h', p) == BlockSize(d)
      ensures if p == 0 then Refused(size, h, used) else Served(size, p, h, h')
    {
      assert BlockSize(d) >= size;
      hide GotBlock, PageOf, Extent, BlockSize, Fits, NoGroup;
    }

    lemma OthersAre()
      requires pages.Valid()
      ensures Others() == pages.KernelUsed() - PagesIn(Spread(arenas))
    {
    }

    lemma OthersStay(p: nat, n: nat, h: Heap, used: set<nat>)
      requires pages.Valid() && HeapInv(h, used) && GotPages(p, n, h.arenas, used)
      ensures Others() == used - PagesIn(Spread(h.arenas))
    {
      InvIsWeak(h, used);
      SpansOf(h, used);
      SpreadOf(h.arenas, used);
      hide HeapInv, Spans, PagesIn, Range, PageOf;
      if p != 0 && PageOf(p) !in h.arenas {
        PagesTaken(Spread(h.arenas), used, PageOf(p), n);
      }
    }

    /** The search for the smallest descriptor that satisfies a request. */
    method FindDesc(size: nat) returns (d: nat)
      requires Valid()
      ensures d <= DESCS && (d < DESCS ==> BlockSize(d) >= size)
      ensures forall e: nat | e < d :: BlockSize(e) < size
      ensures d == DESCS <==> size > PGSIZE / 4
    {
      d := 0;
      while d < |descs|
        invariant d <= |descs| && forall e: nat | e < d :: BlockSize(e) < size
      {
        if descs[d].blockSize >= size {
          Sizes();
          return;
        }
        d := d + 1;
      }
      Sizes();
    }

    /** The part of malloc for requests that are too big for any descriptor. */
    method MallocBig(size: nat) returns (p: nat)
      requires Valid() && 0 < size < WORD
      modifies this`arenas, pages.kernelMap.bits
      ensures Valid()
      ensures if p == 0 then State() == old(State()) else GotBlock(old(State()), State(), p)
      ensures p == 0 ==> PagesFor(size) == 0
                         || NoGroup(PagesFor(size), old(pages.KernelUsed()))
      ensures p != 0 ==> IsLive(State(), p) && (size + ARENA <= WORD ==> Extent(State(), p) >= size)
      ensures p != 0 ==> PageOf(p) !in old(arenas)
      ensures GotPages(p, PagesFor(size), old(arenas), old(pages.KernelUsed()))
    {
      hide *;
      ValidParts();
      ghost var h, used := State(), pages.KernelUsed();
      var pageCnt := PagesFor(size);
      var r := pages.GetKernelPages(pageCnt);
      StateIs();
      if r.NotFound? {
        ValidAgain();
        if pageCnt > 0 {
          NoGroupIs(pageCnt, used);
        }
        NoPagesGot(pageCnt, h.arenas, used);
        return 0;
      }
      pages.PoolsApart();
      NewPages(pages.Pool(false), used, r.index, pageCnt);
      WithBigKeeps(h, used, r.index, pageCnt);
      PagesSufficeIff(size);
      BigPages(pageCnt);
      HeaderAddress(r.index, 0);
      NotAnArena(h, used, r.index);
      SpreadMore(arenas, r.index, Big(pageCnt));
      arenas := arenas[r.index := Big(pageCnt)];
      BigIs(h, r.index, pageCnt);
      p := r.index * PGSIZE + ARENA;
      BigAddress(r.index, pageCnt, size);
      PagesGot(p, pageCnt, h.arenas, used);
      StateIs();
      BlockGot(h, State(), p);
      ValidAgain();
    }

    /** The part of malloc for a request that a descriptor satisfies. */
    method MallocBlock(d: nat) returns (p: nat)
      requires Valid() && d < DESCS
      modifies this`arenas, this`freeLists, pages.kernelMap.bits
      ensures Valid()
      ensures if p == 0 then State() == old(State()) && old(freeLists)[d] == [] else GotBlock(old(State()), State(), p)
      ensures p == 0 ==> NoGroup(1, old(pages.KernelUsed()))
      ensures p != 0 ==> IsLive(State(), p) && Extent(State(), p) == BlockSize(d)
      ensures p != 0 ==> (PageOf(p) in old(arenas) <==> old(freeLists)[d] != [])
      ensures GotPages(p, 1, old(arenas), old(pages.KernelUsed()))
    {
      hide HeapInv, WeakInv, IsLive, Extent, InUse, OnArena, Spread;
      InvIsWeak(State(), pages.KernelUsed());
      if freeLists[d] == [] {
        var page := AddArena(d);
        if page == 0 {
          return 0;
        }
      } else {
        SomeInUse(State(), pages.KernelUsed(), d);
      }
      p := TakeFirst(d);
      assert Range(PageOf(p), 1) == {PageOf(p)};
    }

    /** The end of malloc: the first block of a free list is the one to return. */
    method TakeFirst(d: nat) returns (p: nat)
      requires pages.Valid() && WeakInv(State(), pages.KernelUsed())
      requires d < DESCS && |freeLists| == DESCS && freeLists[d] != [] && InUse(arenas, PageOf(freeLists[d][0]))
      modifies this`arenas, this`freeLists
      ensures HeapInv(State(), pages.KernelUsed()) && |freeLists| == DESCS
      ensures p != 0 && !old(IsLive(State(), p)) && IsLive(State(), p) && Extent(State(), p) == BlockSize(d)
      ensures forall x :: IsLive(State(), x) <==> old(IsLive(State(), x)) || x == p
      ensures forall x | old(IsLive(State(), x)) :: Extent(State(), x) == old(Extent(State(), x))
      ensures Spread(arenas) == old(Spread(arenas)) && p == old(freeLists)[d][0]
    {
      hide HeapInv, WeakInv, IsLive, Extent, InUse, Spread;
      ghost var h := State();
      TookKeeps(h, pages.KernelUsed(), d);
      p := freeLists[d][0];
      freeLists := freeLists[d := freeLists[d][1..]];
      var a := PageOf(p);
      SpreadSame(arenas, a, Normal(d, arenas[a].freeCnt - 1));
      arenas := arenas[a := Normal(d, arenas[a].freeCnt - 1)];
      TookIs(h, d, p, Took(h, d));
      assert State() == Took(h, d);
      NotNull(h, pages.KernelUsed(), p);
    }

    /** free. The pages of an arena go back to the page allocator when its last block is freed, and
        not before. */
    method Free(p: nat)
      requires Valid() && (p != 0 ==> IsLive(State(), p))
      modifies this`arenas, this`freeLists, pages.kernelMap.bits, pages.userMap.bits
      ensures Valid()
      ensures p == 0 ==> State() == old(State()) && pages.KernelUsed() == old(pages.KernelUsed())
      ensures p != 0 ==> forall x :: IsLive(State(), x) <==> old(IsLive(State(), x)) && x != p
      ensures forall x | IsLive(State(), x) :: old(IsLive(State(), x)) && Extent(State(), x) == old(Extent(State(), x))
      ensures p != 0 ==> PageOf(p) in old(arenas) && GaveUpIf(!PageInUse(PageOf(p)), PageOf(p), old(arenas), old(pages.KernelUsed()))
      ensures Others() == old(Others()) && pages.UserUsed() == old(pages.UserUsed())
    {
      hide HeapInv, IsBlock, PageOf, Extent, Spread, PagesIn, Range;
      if p != 0 {
        ghost var h, used := State(), pages.KernelUsed();
        var page := PageOf(p);
        match arenas[page]
        case Normal(d, _) =>
          FreeBlock(p, d);
          GivenUp(h, used, page);
        case Big(n) =>
          FreeBig(p, n);
          GivenUp(h, used, page);
      }
    }

    /** free undoes malloc: the same blocks are handed out as before, and the same pages are used. */
    method MallocAndFree(size: nat)
      requires Valid() && size < WORD
      modifies this`arenas, this`freeLists, pages.kernelMap.bits, pages.userMap.bits
      ensures Valid() && pages.KernelUsed() == old(pages.KernelUsed()) && pages.UserUsed() == old(pages.UserUsed())
      ensures Spread(arenas) == old(Spread(arenas))
      ensures forall x :: IsLive(State(), x) <==> old(IsLive(State(), x))
    {
      hide HeapInv, IsLive, Extent, PageOf, Spread, Range, PagesFor, BlockSize;
      ghost var h, used, n := State(), pages.KernelUsed(), if size <= PGSIZE / 4 then 1 else PagesFor(size);
      var p := Malloc(size);
      ghost var arenas1 := arenas;
      Free(p);
      if p != 0 {
        if PageOf(p) in h.arenas {
          ArenaInUse(h, used, PageOf(p));
        } else {
          LiveOnArenas(h);
          PagesBack(arenas1, h.arenas, used, PageOf(p), n);
        }
      }
    }

    /** A block on this page is handed out. */
    ghost predicate PageInUse(page: nat)
      requires |freeLists| == DESCS
      reads this
    {
      exists x :: IsLive(State(), x) && PageOf(x) == page
    }

    /** What free does to pages: an arena without a block in use is no more, and its pages are free. */
    ghost predicate GaveUpIf(up: bool, page: nat, before: map<nat, Arena>, used: set<nat>)
      requires pages.Valid() && page in before
      reads this, pages.kernelMap.bits
    {
      if up then Spread(arenas) == Spread(before) - {page} && pages.KernelUsed() == used - Range(page, PagesOf(before[page]))
      else Spread(arenas) == Spread(before) && pages.KernelUsed() == used
    }

    lemma GivenUp(h: Heap, used: set<nat>, page: nat)
      requires pages.Valid() && HeapInv(h, used) && page in h.arenas
      requires exists up :: GaveUpIf(up, page, h.arenas, used)
      ensures Others() == used - PagesIn(Spread(h.arenas))
    {
      InvIsWeak(h, used);
      SpansOf(h, used);
      SpreadOf(h.arenas, used);
      assert page in Spread(h.arenas) && Spread(h.arenas)[page] == PagesOf(h.arenas[page]);
      hide HeapInv, Spans, PagesIn, Range, Spread;
      PagesGiven(Spread(h.arenas), used, page);
    }

    method FreeBig(p: nat, n: nat)
      requires Valid() && IsLive(State(), p) && arenas[PageOf(p)] == Big(n)
      modifies this`arenas, pages.kernelMap.bits, pages.userMap.bits
      ensures Valid()
      ensures forall x :: IsLive(State(), x) <==> old(IsLive(State(), x)) && x != p
      ensures forall x | IsLive(State(), x) :: PageOf(x) != PageOf(p) && Extent(State(), x) == old(Extent(State(), x))
      ensures GaveUpIf(true, PageOf(p), old(arenas), old(pages.KernelUsed()))
      ensures pages.UserUsed() == old(pages.UserUsed())
    {
      hide *;
      ValidParts();
      ghost var h, used := State(), pages.KernelUsed();
      HeaderPresent(h, p);
      var page := PageOf(p);
      InvIsWeak(h, used);
      WithoutBigKeeps(h, used, p);
      PagesAreUsed(h, used, page);
      BigPages(n);
      pages.PoolsApart();
      UserApart(pages.UserUsed(), used, page, n);
      pages.FreePages(page, n);
      SpreadMore(arenas, page, Big(n));
      arenas := arenas - {page};
      WithoutBigIs(h, page);
      UpGiven(page, h.arenas, used);
      StateIs();
      ValidAgain();
    }

    lemma UserApart(user: set<nat>, kernel: set<nat>, page: nat, n: nat)
      requires user <= pages.Pool(true) && kernel <= pages.Pool(false) && pages.Pool(true) !! pages.Pool(false)
      requires Range(page, n) <= kernel
      ensures user - Range(page, n) == user
    {
      hide Range;
    }

    lemma UpGiven(page: nat, before: map<nat, Arena>, used: set<nat>)
      requires pages.Valid() && page in before && Spread(arenas) == Spread(before) - {page}
      requires pages.KernelUsed() == used - Range(page, PagesOf(before[page]))
      ensures GaveUpIf(true, page, before, used)
    {
    }

    lemma StateIs()
      ensures State() == Heap(arenas, freeLists)
    {
    }

    lemma ValidParts()
      requires Valid()
      ensures State() == Heap(arenas, freeLists) && pages.Valid() && |descs| == DESCS && |freeLists| == DESCS
      ensures HeapInv(State(), pages.KernelUsed())
      ensures forall d | 0 <= d < DESCS :: descs[d] == Desc(BlockSize(d), PerArena(d))
    {
    }

    lemma ValidAgain()
      requires pages.Valid() && |descs| == DESCS && |freeLists| == DESCS && HeapInv(State(), pages.KernelUsed())
      requires forall d | 0 <= d < DESCS :: descs[d] == Desc(BlockSize(d), PerArena(d))
      ensures Valid()
    {
    }

    method FreeBlock(p: nat, d: nat)
      requires Valid() && IsLive(State(), p) && arenas[PageOf(p)].Normal? && arenas[PageOf(p)].d == d
      modifies this`arenas, this`freeLists, pages.kernelMap.bits, pages.userMap.bits
      ensures Valid()
      ensures forall x :: IsLive(State(), x) <==> old(IsLive(State(), x)) && x != p
      ensures forall x | IsLive(State(), x) :: Extent(State(), x) == old(Extent(State(), x))
      ensures GaveUpIf(!PageInUse(PageOf(p)), PageOf(p), old(arenas), old(pages.KernelUsed()))
      ensures pages.UserUsed() == old(pages.UserUsed())
    {
      hide HeapInv, WeakInv, IsLive, Extent, PageOf, InUse, Spread;
      ghost var h := State();
      HeaderPresent(h, p);
      var page := PageOf(p);
      LiveIsOnArena(h, p, d);
      GaveKeeps(h, pages.KernelUsed(), p, d);
      freeLists := freeLists[d := [p] + freeLists[d]];
      SpreadSame(arenas, page, Normal(d, arenas[page].freeCnt + 1));
      arenas := arenas[page := Normal(d, arenas[page].freeCnt + 1)];
      GaveIs(h, p, d, Gave(h, p, d));
      assert State() == Gave(h, p, d);
      ghost var h1 := State();
      if arenas[page].freeCnt >= descs[d].blocksPerArena {
        assert arenas[page].freeCnt == descs[d].blocksPerArena;
        DroppedKeeps(h1, pages.KernelUsed(), page, d);
        PagesAreUsed(h1, pages.KernelUsed(), page);
        EmptyFreeList(h1, page, d);
        SpreadMore(arenas, page, arenas[page]);
        arenas := arenas - {page};
        assert State() == Dropped(h1, page, d);
        pages.PoolsApart();
        UserApart(pages.UserUsed(), pages.KernelUsed(), page, 1);
        pages.FreePages(page, 1);
      } else {
        StillInUse(h1, pages.KernelUsed(), page, d);
      }
    }

    /** The loop that takes the blocks of an arena off the free list. */
    method EmptyFreeList(ghost h: Heap, page: nat, d: nat)
      requires h == State() && pages.Valid() && WeakInv(h, pages.KernelUsed())
      requires d < |descs| && descs[d].blocksPerArena == PerArena(d) && d < DESCS
      modifies this`freeLists
      ensures |h.free| == DESCS && freeLists == h.free[d := OffPage(h.free[d], page)]
    {
      hide WeakInv, PageOf;
      FreeListCount(h, pages.KernelUsed());
      BlocksAligned(h, pages.KernelUsed(), page, d);
      OffNone(h.free[d], page, d);
      var i := 0;
      while i < descs[d].blocksPerArena
        invariant i <= PerArena(d)
        invariant freeLists == h.free[d := OffFirst(h.free[d], page, d, i)]
      {
        OffNext(h.free[d], page, d, i);
        freeLists := freeLists[d := Without(freeLists[d], Addr(page, i, d))];
        i := i + 1;
      }
      OffAll(h.free[d], page, d);
    }

    /** A new arena for an empty free list; page 0 means that there is no page left. */
    method AddArena(d: nat) returns (page: nat)
      requires Valid() && d < DESCS && |freeLists| == DESCS && freeLists[d] == []
      modifies this`arenas, this`freeLists, pages.kernelMap.bits
      ensures |freeLists| == DESCS
      ensures page == 0 ==> Valid() && State() == old(State())
      ensures page == 0 ==> NoGroup(1, old(pages.KernelUsed()))
      ensures page != 0 ==> WeakInv(State(), pages.KernelUsed()) && freeLists[d] != [] && InUse(arenas, PageOf(freeLists[d][0]))
      ensures page != 0 ==> forall x :: IsLive(State(), x) <==> old(IsLive(State(), x))
      ensures page != 0 ==> forall x | old(IsLive(State(), x)) :: Extent(State(), x) == old(Extent(State(), x))
      ensures page == 0 ==> pages.KernelUsed() == old(pages.KernelUsed())
      ensures page != 0 ==> Spread(arenas) == old(Spread(arenas))[page := 1] && page !in old(arenas) && PageOf(freeLists[d][0]) == page
      ensures page != 0 ==> page !in old(pages.KernelUsed()) && pages.KernelUsed() == old(pages.KernelUsed()) + {page}
    {
      hide HeapInv, WeakInv, IsLive, Extent, InUse, PageOf, BlocksOf, Spread, NoGroup, Range;
      ghost var h, used := State(), pages.KernelUsed();
      var r := pages.GetKernelPages(1);
      if r.NotFound? {
        NoGroupIs(1, used);
        return 0;
      }
      page := r.index;
      pages.PoolsApart();
      NewPages(pages.Pool(false), used, page, 1);
      NewArenaKeeps(h, used, page, d);
      SpreadMore(arenas, page, Normal(d, descs[d].blocksPerArena));
      arenas := arenas[page := Normal(d, descs[d].blocksPerArena)];
      FillFreeList(page, d);
      WithArenaIs(h, page, d);
      FirstOfArena(page, d);
    }

    /** The loop that puts the blocks of a new arena on the free list. */
    method FillFreeList(page: nat, d: nat)
      requires d < |freeLists| && d < |descs| && descs[d].blocksPerArena == PerArena(d)
      modifies this`freeLists
      ensures freeLists == old(freeLists)[d := old(freeLists)[d] + BlocksOf(page, d, PerArena(d))]
    {
      var i := 0;
      assert old(freeLists)[d] + BlocksOf(page, d, 0) == old(freeLists)[d];
      while i < descs[d].blocksPerArena
        invariant i <= PerArena(d)
        invariant freeLists == old(freeLists)[d := old(freeLists)[d] + BlocksOf(page, d, i)]
      {
        OneBlockMore(page, d, i);
        assert (old(freeLists)[d] + BlocksOf(page, d, i)) + [Addr(page, i, d)] == old(freeLists)[d] + BlocksOf(page, d, i + 1);
        freeLists := freeLists[d := freeLists[d] + [Addr(page, i, d)]];
        i := i + 1;
      }
    }
  }

  lemma NewPages(pool: set<nat>, used: set<nat>, p: nat, cnt: nat)
    requires Range(p, cnt) <= pool - used && cnt > 0 && 0 !in pool
    ensures Range(p, cnt) !! used && p > 0 && p !in used && (cnt == 1 ==> Range(p, cnt) == {p})
  {
    assert p in Range(p, cnt);
  }

  lemma FirstOfArena(page: nat, d: nat)
    requires d < DESCS
    ensures PerArena(d) > 0 && BlocksOf(page, d, PerArena(d)) != [] && PageOf(BlocksOf(page, d, PerArena(d))[0]) == page
  {
    Sizes();
    BlockOfArena(page, 0, d);
    assert |BlocksOf(page, d, PerArena(d))| == PerArena(d);
  }

  lemma FreeListCount(h: Heap, used: set<nat>)
    requires WeakInv(h, used)
    ensures |h.free| == DESCS
  {
  }

  lemma BlockGot(h: Heap, h': Heap, p: nat)
    requires |h.free| == |h'.free| == DESCS && p != 0 && !IsLive(h, p) && IsLive(h', p)
    requires forall x :: IsLive(h', x) <==> IsLive(h, x) || x == p
    requires forall x | IsLive(h, x) :: Extent(h', x) == Extent(h, x)
    ensures GotBlock(h, h', p)
  {
    hide IsLive, Extent;
  }

  lemma InvIsWeak(h: Heap, used: set<nat>)
    requires HeapInv(h, used)
    ensures WeakInv(h, used) && |h.free| == DESCS
  {
    hide Counts;
  }

  lemma SomeInUse(h: Heap, used: set<nat>, d: nat)
    requires HeapInv(h, used) && d < DESCS && h.free[d] != []
    ensures WeakInv(h, used) && InUse(h.arenas, PageOf(h.free[d][0])) && PageOf(h.free[d][0]) in h.arenas
  {
    assert OnArena(h.arenas, h.free[d][0], d);
    hide Counts;
  }

  lemma BigAddress(page: nat, n: nat, size: nat)
    ensures page * PGSIZE + ARENA != 0
    ensures n * PGSIZE >= size + ARENA ==> n * PGSIZE - ARENA >= size
  {
  }

  lemma BigPages(n: nat)
    ensures PagesOf(Big(n)) == n
  {
  }

  lemma WithoutBigIs(h: Heap, page: nat)
    ensures WithoutBig(h, page) == Heap(h.arenas - {page}, h.free)
  {
  }

  lemma HeaderPresent(h: Heap, a: nat)
    requires |h.free| == DESCS && IsLive(h, a)
    ensures PageOf(a) in h.arenas
  {
  }

  lemma LiveIsOnArena(h: Heap, a: nat, d: nat)
    requires |h.free| == DESCS && IsLive(h, a) && h.arenas[PageOf(a)].Normal? && h.arenas[PageOf(a)].d == d
    ensures d < DESCS && OnArena(h.arenas, a, d)
  {
    hide PageOf, IsBlock;
  }

  lemma PagesAreUsed(h: Heap, used: set<nat>, page: nat)
    requires WeakInv(h, used) && page in h.arenas
    ensures page > 0 && Range(page, PagesOf(h.arenas[page])) <= used && Range(page, 1) == {page}
  {
  }

  lemma BlocksAligned(h: Heap, used: set<nat>, page: nat, d: nat)
    requires WeakInv(h, used) && d < DESCS
    ensures forall a | a in h.free[d] && PageOf(a) == page :: IsBlock(a, d)
  {
    hide PageOf, IsBlock;
  }

  /** An arena that is not wholly on the free list has a block that is handed out. */
  lemma StillInUse(h: Heap, used: set<nat>, page: nat, d: nat)
    requires WeakInv(h, used) && InUse(h.arenas, page) && page in h.arenas && d < DESCS
    requires h.arenas[page].Normal? && h.arenas[page].d == d && h.arenas[page].freeCnt < PerArena(d)
    ensures HeapInv(h, used) && exists x :: IsLive(h, x) && PageOf(x) == page
  {
    var f := FreeIdx(h.free[d], page, d);
    RangeSize(0, PerArena(d));
    if Range(0, PerArena(d)) <= f {
      SubsetSize(Range(0, PerArena(d)), f);
    }
    var k :| k in Range(0, PerArena(d)) && k !in f;
    BlockOfArena(page, k, d);
    assert IsLive(h, Addr(page, k, d));
  }

  lemma FitsOnce(d: nat, size: nat)
    requires d <= DESCS && (d < DESCS ==> BlockSize(d) >= size) && forall e: nat | e < d :: BlockSize(e) < size
    ensures forall e: nat :: Fits(e, size) <==> d < DESCS && e == d
  {
    hide BlockSize;
  }

  /** Between calls every arena has a block that is handed out. */
  lemma ArenaInUse(h: Heap, used: set<nat>, page: nat)
    requires HeapInv(h, used) && page in h.arenas
    ensures |h.free| == DESCS && exists x :: IsLive(h, x) && PageOf(x) == page
  {
    InvIsWeak(h, used);
    SpansOf(h, used);
    match h.arenas[page]
    case Normal(d, _) => StillInUse(h, used, page, d);
    case Big(_) =>
      HeaderAddress(page, 0);
      assert IsLive(h, page * PGSIZE + ARENA);
  }

  lemma LiveOnArenas(h: Heap)
    requires |h.free| == DESCS
    ensures forall x | IsLive(h, x) :: PageOf(x) in h.arenas
  {
    hide PageOf;
  }

  lemma PagesBack(arenas1: map<nat, Arena>, arenas: map<nat, Arena>, used: set<nat>, page: nat, n: nat)
    requires Spread(arenas1) == Spread(arenas)[page := n] && page !in arenas && Range(page, n) !! used
    ensures page in arenas1 && PagesOf(arenas1[page]) == n
    ensures Spread(arenas1) - {page} == Spread(arenas) && used + Range(page, n) - Range(page, n) == used
  {
    assert page in Spread(arenas1) && Spread(arenas1)[page] == n;
    hide Range;
  }

  /** No block is at address 0. */
  lemma NotNull(h: Heap, used: set<nat>, a: nat)
    requires WeakInv(h, used) && PageOf(a) in h.arenas
    ensures a != 0
  {
  }

  // ----- The loops over the blocks of an arena ----------------------------------------------------

  lemma OneBlockMore(page: nat, d: nat, i: nat)
    ensures BlocksOf(page, d, i + 1) == BlocksOf(page, d, i) + [Addr(page, i, d)]
  {
  }

  /** list_remove, of an element that occurs once. */
  function Without(s: seq<nat>, a: nat): seq<nat> {
    if s == [] then [] else if s[0] == a then Without(s[1..], a) else [s[0]] + Without(s[1..], a)
  }

  predicate Removed(a: nat, page: nat, d: nat, i: nat) {
    PageOf(a) == page && Index(a, d) < i
  }

  /** The free list while free removes the blocks of an arena: those with an index below i are gone. */
  function OffFirst(s: seq<nat>, page: nat, d: nat, i: nat): seq<nat> {
    if s == [] then []
    else if Removed(s[0], page, d, i) then OffFirst(s[1..], page, d, i)
    else [s[0]] + OffFirst(s[1..], page, d, i)
  }

  lemma {:induction false} OffNone(s: seq<nat>, page: nat, d: nat)
    ensures OffFirst(s, page, d, 0) == s
  {
    if s != [] {
      OffNone(s[1..], page, d);
      assert s == [s[0]] + s[1..];
    }
  }

  lemma {:induction false} OffNext(s: seq<nat>, page: nat, d: nat, i: nat)
    requires i < PerArena(d) && forall a | a in s && PageOf(a) == page :: IsBlock(a, d)
    ensures Without(OffFirst(s, page, d, i), Addr(page, i, d)) == OffFirst(s, page, d, i + 1)
  {
    if s != [] {
      OffNext(s[1..], page, d, i);
      BlockOfArena(page, i, d);
      if PageOf(s[0]) == page {
        AddressOfBlock(s[0], d);
      }
      var rest := OffFirst(s[1..], page, d, i);
      assert ([s[0]] + rest)[1..] == rest;
    }
  }

  lemma {:induction false} OffAll(s: seq<nat>, page: nat, d: nat)
    requires forall a | a in s && PageOf(a) == page :: IsBlock(a, d)
    ensures OffFirst(s, page, d, PerArena(d)) == OffPage(s, page)
  {
    if s != [] {
      OffAll(s[1..], page, d);
      assert s[0] in s;
    }
  }

  lemma Sizes()
    ensures forall d | 0 <= d < DESCS :: BlockSize(d) < PGSIZE / 2
    ensures BlockSize(DESCS) == PGSIZE / 2
    ensures forall d | 0 <= d < DESCS :: PerArena(d) > 0
  {
    assert BlockSize(1) == 32;
    assert BlockSize(2) == 64;
    assert BlockSize(3) == 128;
    assert BlockSize(4) == 256;
    assert BlockSize(5) == 512;
    assert BlockSize(6) == 1024;
    assert BlockSize(7) == 2048;
  }
}
