/** The page allocator: src/threads/palloc.c over the bitmap.  Pages are known by
    their page numbers, pg_no(). */
module Palloc {
  import opened Options
  import opened Words
  import B = Bitmap

  /** The page numbers first..first+cnt. */
  ghost function Pages(first: nat, cnt: nat): (s: set<nat>)
    ensures forall p :: p in s <==> first <= p < first + cnt
  {
    if cnt == 0 then {} else Pages(first, cnt - 1) + {first + cnt - 1}
  }

  /** The pages that the bitmap of a pool of n pages takes: DIV_ROUND_UP of
      bitmap_buf_size (n). */
  function BitmapPages(n: nat): (k: nat) {
    (8 + 4 * ((n + 31) / 32) + PGSIZE - 1) / PGSIZE
  }

  /** The bitmap of n pages is 8 bytes and a word for every 32 pages, and takes no more pages
      than that needs. */
  lemma BitmapFits(n: nat, words: nat)
    requires n <= 32 * words < n + 32
    ensures 8 + 4 * words <= 4096 * BitmapPages(n) < 8 + 4 * words + 4096
  {
    assert (n + 31) / 32 == words;
  }

  /** The pages first..first+cnt are in the pool and none is used. */
  ghost predicate FreeRun(basePage: nat, size: nat, used: set<nat>, first: nat, cnt: nat) {
    basePage <= first && first + cnt <= basePage + size && Pages(first, cnt) !! used
  }

  /** The bits v mark the used pages of a pool that starts at basePage. */
  ghost predicate Marks(v: seq<bool>, basePage: nat, used: set<nat>) {
    && (forall p :: p in used ==> basePage <= p < basePage + |v|)
    && (forall i {:trigger v[i]} :: 0 <= i < |v| ==> (v[i] <==> basePage + i in used))
  }

  class Pool {
    const basePage: nat
    const usedMap: B.Bits32
    ghost var used: set<nat>

    ghost predicate Valid()
      reads this, usedMap, usedMap.bits
    {
      && usedMap.Valid()
      && Marks(usedMap.View(), basePage, used)
    }

    /** init_pool(): the bitmap lies in the first pages; it panics if it does not fit. */
    constructor (firstPage: nat, pageCnt: nat)
      requires BitmapPages(pageCnt) <= pageCnt
      ensures Valid() && used == {} && fresh(usedMap) && fresh(usedMap.bits)
      ensures basePage == firstPage + BitmapPages(pageCnt) && basePage + usedMap.bitCnt == firstPage + pageCnt
    {
      var bm := new B.Bits32(pageCnt - BitmapPages(pageCnt));
      basePage, usedMap, used := firstPage + BitmapPages(pageCnt), bm, {};
    }

    /** page_from_pool() */
    method PageFromPool(page: nat) returns (r: bool)
      requires Valid()
      ensures r <==> basePage <= page < basePage + usedMap.bitCnt
    {
      var endPage := basePage + usedMap.bitCnt;
      r := page >= basePage && page < endPage;
    }

    /** palloc_get_multiple(): the first run of free pages that is long enough; null
        exactly when there is none or no page is asked for. */
    method GetMultiple(pageCnt: nat) returns (r: Option<nat>)
      requires Valid()
      modifies this, usedMap.bits
      ensures Valid()
      ensures r.Some? ==> pageCnt > 0 && FreeRun(basePage, usedMap.bitCnt, old(used), r.value, pageCnt)
      ensures r.Some? ==> used == old(used) + Pages(r.value, pageCnt)
      ensures r.Some? ==> forall p: nat :: p < r.value ==> !FreeRun(basePage, usedMap.bitCnt, old(used), p, pageCnt)
      ensures r.None? ==>
        used == old(used) && (pageCnt == 0 || forall p: nat :: !FreeRun(basePage, usedMap.bitCnt, used, p, pageCnt))
    {
      if pageCnt == 0 {
        return None;
      }
      ghost var v := usedMap.View();
      var idx := usedMap.ScanAndFlip(0, pageCnt, false);
      if idx.None? {
        NoneBefore(v, basePage, used, pageCnt, |v|);
        return None;
      }
      NoneBefore(v, basePage, used, pageCnt, idx.value);
      RunTaken(v, basePage, used, idx.value, pageCnt);
      r := Some(basePage + idx.value);
      used := used + Pages(basePage + idx.value, pageCnt);
    }

    /** palloc_free_multiple() of pages that were allocated. */
    method FreeMultiple(page: nat, pageCnt: nat)
      requires Valid() && Pages(page, pageCnt) <= used
      modifies this, usedMap.bits
      ensures Valid() && used == old(used) - Pages(page, pageCnt)
    {
      if pageCnt == 0 {
        return;
      }
      assert page in Pages(page, pageCnt) && page + pageCnt - 1 in Pages(page, pageCnt);
      usedMap.SetMultiple(page - basePage, pageCnt, false);
      used := used - Pages(page, pageCnt);
    }
  }

  /** The pool has no run of cnt free pages. */
  ghost predicate NoRun(pool: Pool, cnt: nat)
    reads pool, pool.usedMap
  {
    forall p: nat :: !FreeRun(pool.basePage, pool.usedMap.bitCnt, pool.used, p, cnt)
  }

  /** The two pools. */
  class PageAllocator {
    const kernel: Pool
    const user: Pool

    ghost predicate Valid()
      reads this, kernel, kernel.usedMap, kernel.usedMap.bits, user, user.usedMap, user.usedMap.bits
    {
      && kernel.Valid() && user.Valid()
      && kernel != user && kernel.usedMap != user.usedMap && kernel.usedMap.bits != user.usedMap.bits
      && kernel.basePage + kernel.usedMap.bitCnt <= user.basePage
    }

    /** palloc_init(): at most half of the pages, and at most userLimit, go to the user pool. */
    constructor (firstPage: nat, pages: nat, userLimit: nat)
      requires var u := if pages / 2 > userLimit then userLimit else pages / 2;
        BitmapPages(u) <= u && BitmapPages(pages - u) <= pages - u
      ensures Valid() && kernel.used == user.used == {} && fresh(kernel) && fresh(user)
      ensures firstPage <= kernel.basePage && user.basePage + user.usedMap.bitCnt == firstPage + pages
      ensures
        var userPages := firstPage + pages - (kernel.basePage + kernel.usedMap.bitCnt);
        && user.usedMap.bitCnt <= userPages <= userLimit && 2 * userPages <= pages
        && (userPages == userLimit || pages <= 2 * userPages + 1)
    {
      var userPages := if pages / 2 > userLimit then userLimit else pages / 2;
      var k := new Pool(firstPage, pages - userPages);
      var u := new Pool(firstPage + (pages - userPages), userPages);
      kernel, user := k, u;
    }

    /** palloc_free_multiple(): the pages go back to the pool that they came from. */
    method FreeMultiple(page: nat, pageCnt: nat)
      requires Valid() && (Pages(page, pageCnt) <= kernel.used || Pages(page, pageCnt) <= user.used)
      modifies kernel, kernel.usedMap.bits, user, user.usedMap.bits
      ensures Valid()
      ensures kernel.used == old(kernel.used) - Pages(page, pageCnt)
      ensures user.used == old(user.used) - Pages(page, pageCnt)
    {
      if pageCnt == 0 {
        return;
      }
      assert page in Pages(page, pageCnt) && page + pageCnt - 1 in Pages(page, pageCnt);
      var inKernel := kernel.PageFromPool(page);
      if inKernel {
        kernel.FreeMultiple(page, pageCnt);
      } else {
        user.FreeMultiple(page, pageCnt);
      }
    }
  }

  /** A run of free pages is a run of zero bits. */
  lemma RunIsFree(v: seq<bool>, basePage: nat, used: set<nat>, p: nat, cnt: nat)
    requires Marks(v, basePage, used)
    ensures FreeRun(basePage, |v|, used, p, cnt) <==> p >= basePage && B.AllAre(v, p - basePage, cnt, false)
  {
    if p >= basePage && B.AllAre(v, p - basePage, cnt, false) {
      forall q | q in Pages(p, cnt) ensures q !in used {
        assert !v[q - basePage];
      }
    }
    if FreeRun(basePage, |v|, used, p, cnt) {
      forall k | p - basePage <= k < p - basePage + cnt ensures v[k] == false {
        assert basePage + k in Pages(p, cnt);
      }
    }
  }

  /** If no run of clear bits starts before n, no run of free pages starts before page n;
      with all n bits tried, there is none at all. */
  lemma NoneBefore(v: seq<bool>, basePage: nat, used: set<nat>, cnt: nat, n: nat)
    requires Marks(v, basePage, used) && n <= |v| && cnt > 0
    requires forall j: nat :: j < n ==> !B.AllAre(v, j, cnt, false)
    ensures forall p: nat :: p < basePage + n ==> !FreeRun(basePage, |v|, used, p, cnt)
    ensures n == |v| ==> forall p: nat :: !FreeRun(basePage, |v|, used, p, cnt)
  {
    forall p: nat | p < basePage + n ensures !FreeRun(basePage, |v|, used, p, cnt) {
      RunIsFree(v, basePage, used, p, cnt);
    }
  }

  lemma RunTaken(v: seq<bool>, basePage: nat, used: set<nat>, i: nat, cnt: nat)
    requires Marks(v, basePage, used) && B.AllAre(v, i, cnt, false)
    ensures FreeRun(basePage, |v|, used, basePage + i, cnt)
    ensures Marks(B.Filled(v, i, cnt, true), basePage, used + Pages(basePage + i, cnt))
  {
    RunIsFree(v, basePage, used, basePage + i, cnt);
  }
}
