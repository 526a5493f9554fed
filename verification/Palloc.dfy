/** The page allocator of threads/palloc.c: two pools of pages, each with a bitmap of used pages. Pages
    are known by their numbers. */
module Palloc {
  import opened Bitmaps

  /** The pages p to p + cnt (exclusive). */
  function Range(p: nat, cnt: nat): (r: set<nat>)
    ensures forall i :: i in r <==> p <= i < p + cnt
  {
    if cnt == 0 then {} else Range(p, cnt - 1) + {p + cnt - 1}
  }

  lemma {:induction false} RangeSize(p: nat, cnt: nat)
    ensures |Range(p, cnt)| == cnt
  {
    if cnt > 0 {
      RangeSize(p, cnt - 1);
      var smaller := Range(p, cnt - 1);
      assert Range(p, cnt) == smaller + {p + cnt - 1} && p + cnt - 1 !in smaller;
    }
  }

  /** The pages of a pool that its bitmap marks as used. */
  function UsedIn(s: seq<bool>, base: nat): set<nat> {
    set i | i in Range(base, |s|) && s[i - base]
  }

  lemma FitsIn(s: seq<bool>, cnt: nat, r: Found)
    requires IsFirstFit(s, 0, cnt, false, r) && r.At?
    ensures r.index + cnt <= |s|
  {
  }

  lemma Apart(s: set<nat>, t: set<nat>)
    requires s !! t
    ensures s - t == s
  {
  }

  lemma FilledIsUsed(s: seq<bool>, base: nat, i: nat, cnt: nat)
    requires i + cnt <= |s|
    ensures UsedIn(Filled(s, i, cnt, true), base) == UsedIn(s, base) + Range(base + i, cnt)
    ensures UsedIn(Filled(s, i, cnt, false), base) == UsedIn(s, base) - Range(base + i, cnt)
    ensures AllAre(s, i, cnt, false) <==> UsedIn(s, base) !! Range(base + i, cnt)
    ensures AllAre(s, i, cnt, true) <==> Range(base + i, cnt) <= UsedIn(s, base)
  {
    var u := UsedIn(s, base);
    if u !! Range(base + i, cnt) {
      forall k | i <= k < i + cnt
        ensures !s[k]
      {
        assert base + k in Range(base + i, cnt);
      }
    }
    if Range(base + i, cnt) <= u {
      forall k | i <= k < i + cnt
        ensures s[k]
      {
        assert base + k in Range(base + i, cnt);
      }
    }
    if AllAre(s, i, cnt, false) {
      forall p | p in Range(base + i, cnt)
        ensures p !in u
      {
        assert s[p - base] == false;
      }
    }
    if AllAre(s, i, cnt, true) {
      forall p | p in Range(base + i, cnt)
        ensures p in u
      {
        assert s[p - base] == true;
      }
    }
  }

  /** sizeof (struct bitmap). */
  const BITMAP_SIZE: nat := 8
  const PAGE_SIZE: nat := 4096

  /** The pages for a bitmap of n bits, where init_pool puts it. */
  function BitmapPages(n: nat): nat {
    (BITMAP_SIZE + (n + ELEM_BITS - 1) / ELEM_BITS * 4 + PAGE_SIZE - 1) / PAGE_SIZE
  }

  function UserPages(freePages: nat, userPageLimit: nat): nat {
    if freePages / 2 > userPageLimit then userPageLimit else freePages / 2
  }

  /** A pool's bitmap gets just enough pages: the struct, and a bit for each page in whole words. */
  lemma BitmapPagesAreLeast(n: nat, k: nat)
    ensures k * PAGE_SIZE >= BITMAP_SIZE + (n + 31) / 32 * 4 <==> k >= BitmapPages(n)
  {
  }

  /** User pages are half of all, rounded down, or as many as the limit allows if that is less. */
  lemma UserPagesAreMost(freePages: nat, limit: nat, n: nat)
    ensures n <= UserPages(freePages, limit) <==> n <= limit && 2 * n <= freePages
  {
  }

  class PageAllocator {
    const kernelMap: Bitmap
    const kernelBase: nat
    const userMap: Bitmap
    const userBase: nat

    /** The pools lie one behind the other, and no pool is at address 0. */
    ghost predicate Valid() {
      && kernelMap.Valid() && userMap.Valid() && kernelMap.bits != userMap.bits
      && 0 < kernelBase && kernelBase + kernelMap.bitCnt <= userBase
    }

    ghost function KernelUsed(): set<nat>
      requires Valid()
      reads kernelMap.bits
    {
      UsedIn(kernelMap.Contents(), kernelBase)
    }

    ghost function UserUsed(): set<nat>
      requires Valid()
      reads userMap.bits
    {
      UsedIn(userMap.Contents(), userBase)
    }

    /** The pages of a pool, used or not. */
    function Pool(user: bool): set<nat> {
      if user then Range(userBase, userMap.bitCnt) else Range(kernelBase, kernelMap.bitCnt)
    }

    lemma PoolsApart()
      requires Valid()
      ensures Pool(true) !! Pool(false) && KernelUsed() <= Pool(false) && UserUsed() <= Pool(true) && 0 !in Pool(false)
    {
    }

    /** palloc_init: at most half of the free pages, and at most the limit, make up the user pool; each pool
        begins with the pages that hold its bitmap. Without room for a bitmap the kernel panics. */
    constructor (start: nat, freePages: nat, userPageLimit: nat)
      requires start > 0 && BitmapPages(UserPages(freePages, userPageLimit)) <= UserPages(freePages, userPageLimit)
      requires var kernel := freePages - UserPages(freePages, userPageLimit); BitmapPages(kernel) <= kernel
      ensures Valid() && fresh(kernelMap.bits) && fresh(userMap.bits)
      ensures KernelUsed() == {} && UserUsed() == {}
      ensures var user := UserPages(freePages, userPageLimit);
        var kernel := freePages - user;
        && kernelBase == start + BitmapPages(kernel) && kernelMap.bitCnt == kernel - BitmapPages(kernel)
        && userBase == start + kernel + BitmapPages(user) && userMap.bitCnt == user - BitmapPages(user)
    {
      hide BitmapPages, UsedIn;
      var userPages := freePages / 2;
      if userPages > userPageLimit {
        userPages := userPageLimit;
      }
      var kernelPages := freePages - userPages;
      kernelMap := new Bitmap(kernelPages - BitmapPages(kernelPages));
      kernelBase := start + BitmapPages(kernelPages);
      userMap := new Bitmap(userPages - BitmapPages(userPages));
      userBase := start + kernelPages + BitmapPages(userPages);
      new;
      NoneUsed(kernelMap.Contents(), kernelBase);
      NoneUsed(userMap.Contents(), userBase);
    }

    static lemma NoneUsed(s: seq<bool>, base: nat)
      requires forall i | 0 <= i < |s| :: !s[i]
      ensures UsedIn(s, base) == {}
    {
    }

    /** palloc_get_multiple: the first group of free pages of the pool, if there is one. */
    method GetPages(user: bool, cnt: nat) returns (r: Found)
      requires Valid()
      modifies if user then userMap.bits else kernelMap.bits
      ensures KernelUsed() == if r.At? && !user then old(KernelUsed()) + Range(r.index, cnt) else old(KernelUsed())
      ensures UserUsed() == if r.At? && user then old(UserUsed()) + Range(r.index, cnt) else old(UserUsed())
      ensures var free := Pool(user) - if user then old(UserUsed()) else old(KernelUsed());
        && (r.At? ==> cnt > 0 && Range(r.index, cnt) <= free && forall p: nat :: Range(p, cnt) <= free ==> r.index <= p)
        && (r.NotFound? ==> cnt == 0 || forall p: nat :: !(Range(p, cnt) <= free))
    {
      hide *;
      if cnt == 0 {
        return NotFound;
      }
      UsedAre();
      ThePools();
      if user {
        r := GetFrom(userMap, userBase, cnt);
      } else {
        r := GetFrom(kernelMap, kernelBase, cnt);
      }
      UsedAre();
    }

    /** The search in one pool. */
    static method GetFrom(used: Bitmap, base: nat, cnt: nat) returns (r: Found)
      requires used.Valid() && cnt > 0
      modifies used.bits
      ensures UsedIn(used.Contents(), base)
           == if r.At? then old(UsedIn(used.Contents(), base)) + Range(r.index, cnt) else old(UsedIn(used.Contents(), base))
      ensures var free := Range(base, used.bitCnt) - old(UsedIn(used.Contents(), base));
        && (r.At? ==> Range(r.index, cnt) <= free && forall p: nat :: Range(p, cnt) <= free ==> r.index <= p)
        && (r.NotFound? ==> forall p: nat :: !(Range(p, cnt) <= free))
    {
      hide *;
      ghost var s := used.Contents();
      var idx := used.ScanAndFlip(0, cnt, false);
      FirstFree(s, base, cnt, idx);
      match idx {
        case NotFound =>
          r := NotFound;
        case At(i) =>
          FitsIn(s, cnt, idx);
          FilledIsUsed(s, base, i, cnt);
          r := At(base + i);
      }
    }

    /** palloc_get_multiple without PAL_USER. */
    method GetKernelPages(cnt: nat) returns (r: Found)
      requires Valid()
      modifies kernelMap.bits
      ensures UserUsed() == old(UserUsed())
      ensures r.At? ==> cnt > 0 && Range(r.index, cnt) <= Pool(false) - old(KernelUsed())
      ensures r.At? ==> forall p: nat :: Range(p, cnt) <= Pool(false) - old(KernelUsed()) ==> r.index <= p
      ensures KernelUsed() == if r.At? then old(KernelUsed()) + Range(r.index, cnt) else old(KernelUsed())
      ensures r.NotFound? ==> cnt == 0 || forall p: nat :: !(Range(p, cnt) <= Pool(false) - old(KernelUsed()))
    {
      hide *;
      r := GetPages(false, cnt);
    }

    lemma ThePools()
      ensures Pool(false) == Range(kernelBase, kernelMap.bitCnt) && Pool(true) == Range(userBase, userMap.bitCnt)
    {
    }

    /** palloc_free_multiple, which finds out by the address from which pool the pages are. */
    method FreePages(page: nat, cnt: nat)
      requires Valid()
      requires page != 0 && cnt > 0 ==> Range(page, cnt) <= KernelUsed() || Range(page, cnt) <= UserUsed()
      modifies kernelMap.bits, userMap.bits
      ensures page != 0 ==> KernelUsed() == old(KernelUsed()) - Range(page, cnt)
      ensures page != 0 ==> UserUsed() == old(UserUsed()) - Range(page, cnt)
      ensures page == 0 ==> KernelUsed() == old(KernelUsed()) && UserUsed() == old(UserUsed())
    {
      hide *;
      if page == 0 || cnt == 0 {
        NoPages(page);
        return;
      }
      UsedAre();
      WhichPool(page, cnt);
      ghost var kernel, user := KernelUsed(), UserUsed();
      if kernelBase <= page < kernelBase + kernelMap.bitCnt {
        FreeIn(kernelMap, kernelBase, page - kernelBase, cnt);
        Apart(user, Range(page, cnt));
      } else {
        FreeIn(userMap, userBase, page - userBase, cnt);
        Apart(kernel, Range(page, cnt));
      }
      UsedAre();
    }

    lemma NoPages(page: nat)
      requires Valid()
      ensures KernelUsed() - Range(page, 0) == KernelUsed() && UserUsed() - Range(page, 0) == UserUsed()
    {
    }

    lemma UsedAre()
      requires Valid()
      ensures kernelMap.Valid() && userMap.Valid() && kernelMap.bits != userMap.bits
      ensures KernelUsed() == UsedIn(kernelMap.Contents(), kernelBase) && UserUsed() == UsedIn(userMap.Contents(), userBase)
    {
    }

    /** The assertion that all the pages are in use, and then clearing their bits. */
    static method FreeIn(used: Bitmap, base: nat, i: nat, cnt: nat)
      requires used.Valid() && i + cnt <= used.bitCnt
      requires Range(base + i, cnt) <= UsedIn(used.Contents(), base)
      modifies used.bits
      ensures UsedIn(used.Contents(), base) == old(UsedIn(used.Contents(), base)) - Range(base + i, cnt)
    {
      hide *;
      FilledIsUsed(used.Contents(), base, i, cnt);
      var free := used.Contains(i, cnt, false);
      assert !free;
      used.SetMultiple(i, cnt, false);
    }

    /** The test of page_from_pool tells from which pool a group of used pages is. */
    lemma WhichPool(page: nat, cnt: nat)
      requires Valid() && cnt > 0 && (Range(page, cnt) <= KernelUsed() || Range(page, cnt) <= UserUsed())
      ensures if kernelBase <= page < kernelBase + kernelMap.bitCnt
              then page + cnt <= kernelBase + kernelMap.bitCnt && Range(page, cnt) <= KernelUsed() && Range(page, cnt) !! UserUsed()
              else userBase <= page && page + cnt <= userBase + userMap.bitCnt && Range(page, cnt) <= UserUsed()
                   && Range(page, cnt) !! KernelUsed()
    {
      assert page in Range(page, cnt) && page + cnt - 1 in Range(page, cnt);
    }
  }

  /** A first fit of bits is a first fit of pages. */
  lemma FirstFree(s: seq<bool>, base: nat, cnt: nat, r: Found)
    requires cnt > 0 && IsFirstFit(s, 0, cnt, false, r)
    ensures r.At? ==> Range(base + r.index, cnt) <= Range(base, |s|) - UsedIn(s, base)
    ensures forall p: nat :: Range(p, cnt) <= Range(base, |s|) - UsedIn(s, base) ==> r.At? && base + r.index <= p
  {
    if r.At? {
      FilledIsUsed(s, base, r.index, cnt);
    }
    forall p: nat | Range(p, cnt) <= Range(base, |s|) - UsedIn(s, base)
      ensures r.At? && base + r.index <= p
    {
      assert p in Range(p, cnt) && p + cnt - 1 in Range(p, cnt);
      assert base <= p && p + cnt <= base + |s|;
      FilledIsUsed(s, base, p - base, cnt);
      assert AllAre(s, p - base, cnt, false);
    }
  }
}
