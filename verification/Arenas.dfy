/** How malloc() divides pages into blocks, and what its data structures say about
    them (src/threads/malloc.c). */
module Arenas {
  import opened Options
  import opened Bits
  import opened FiniteSets
  import opened Palloc
  import opened Words

  /** sizeof (struct arena) */
  const HEADER: nat := 12
  const DESC_CNT: nat := 7

  /** The block size of descriptor d. */
  function BlockSize(d: nat): (size: nat)
    requires d < DESC_CNT
    ensures 16 <= size <= 1024
  {
    [16, 32, 64, 128, 256, 512, 1024][d]
  }

  /** blocks_per_arena of descriptor d */
  function BlocksPerArena(d: nat): (n: nat)
    requires d < DESC_CNT
  {
    [255, 127, 63, 31, 15, 7, 3][d]
  }

  /** It is as many as fit behind the header. */
  lemma BlocksFit(d: nat)
    requires d < DESC_CNT
    ensures BlocksPerArena(d) == (PGSIZE - HEADER) / BlockSize(d)
    ensures HEADER + BlocksPerArena(d) * BlockSize(d) <= PGSIZE
  {
  }

  // ---------------------------------------------------------------------
  // Addresses
  // ---------------------------------------------------------------------

  /** pg_no(); the address of an arena is that of its page. */
  function PageOf(x: nat): (p: nat) {
    x / PGSIZE
  }

  /** arena_to_block() for the arena in page p with blocks of the given size */
  function Addr(p: nat, size: nat, i: nat): (x: nat) {
    p * PGSIZE + HEADER + i * size
  }

  /** block_to_arena() finds the arena: a block lies inside its page, behind the
      header, and passes the alignment check. */
  lemma BlockToArena(p: nat, d: nat, i: nat)
    requires d < DESC_CNT && i < BlocksPerArena(d)
    ensures var x := Addr(p, BlockSize(d), i);
      && PageOf(x) == p && p * PGSIZE + HEADER <= x && x + BlockSize(d) <= (p + 1) * PGSIZE
      && (x % PGSIZE - HEADER) % BlockSize(d) == 0
  {
    var size := BlockSize(d);
    BlocksFit(d);
    Within(i, BlocksPerArena(d), size);
    var x := Addr(p, size, i);
    assert x % PGSIZE == HEADER + i * size;
    ModUnique(i * size, size, i, 0);
  }

  lemma Within(i: nat, n: nat, size: nat)
    requires i < n
    ensures i * size + size <= n * size
  {
    MulMonotone(size, i + 1, n);
    assert size * (i + 1) == i * size + size && size * n == n * size;
  }

  /** The blocks of an arena do not overlap. */
  lemma BlocksApart(p: nat, size: nat, i: nat, j: nat)
    requires i < j
    ensures Addr(p, size, i) + size <= Addr(p, size, j)
  {
    Within(i, j, size);
  }

  /** The first n blocks of the arena in page p. */
  ghost function FirstBlocks(p: nat, size: nat, n: nat): (s: set<nat>) {
    if n == 0 then {} else FirstBlocks(p, size, n - 1) + {Addr(p, size, n - 1)}
  }

  ghost function Blocks(p: nat, d: nat): (s: set<nat>)
    requires d < DESC_CNT
  {
    FirstBlocks(p, BlockSize(d), BlocksPerArena(d))
  }

  lemma {:induction false} InFirstBlocks(p: nat, size: nat, n: nat, i: nat)
    requires i < n
    ensures Addr(p, size, i) in FirstBlocks(p, size, n)
  {
    if i < n - 1 {
      InFirstBlocks(p, size, n - 1, i);
    }
  }

  lemma {:induction false} IndexOf(p: nat, size: nat, n: nat, x: nat) returns (i: nat)
    requires x in FirstBlocks(p, size, n)
    ensures i < n && x == Addr(p, size, i)
  {
    if x == Addr(p, size, n - 1) {
      i := n - 1;
    } else {
      i := IndexOf(p, size, n - 1, x);
    }
  }

  lemma {:induction false} FirstBlocksSize(p: nat, size: nat, n: nat)
    requires size > 0
    ensures |FirstBlocks(p, size, n)| == n
    ensures forall x :: x in FirstBlocks(p, size, n) ==> x < Addr(p, size, n)
  {
    if n > 0 {
      FirstBlocksSize(p, size, n - 1);
      BlocksApart(p, size, n - 1, n);
    }
  }

  lemma BlocksSize(p: nat, d: nat)
    requires d < DESC_CNT
    ensures |Blocks(p, d)| == BlocksPerArena(d)
  {
    FirstBlocksSize(p, BlockSize(d), BlocksPerArena(d));
  }

  lemma BlockInPage(p: nat, d: nat, x: nat)
    requires d < DESC_CNT && x in Blocks(p, d)
    ensures PageOf(x) == p && p * PGSIZE + HEADER <= x && x + BlockSize(d) <= (p + 1) * PGSIZE
  {
    var i := IndexOf(p, BlockSize(d), BlocksPerArena(d), x);
    BlockToArena(p, d, i);
  }

  // ---------------------------------------------------------------------
  // The heap
  // ---------------------------------------------------------------------

  /** struct arena: blocks of descriptor d, or one big block. */
  datatype Arena = Small(d: nat, freeCnt: nat) | Big(pageCnt: nat)

  /** The arenas by page; the free blocks of each descriptor; the blocks in use with
      their sizes; which arena each page belongs to; and the pages that the page
      allocator has given to others. */
  datatype Heap = Heap(arenas: map<nat, Arena>, free: seq<set<nat>>, live: map<nat, nat>, owner: map<nat, nat>,
                       other: set<nat>)

  /** The one block of a big arena of n pages. */
  function BigBlock(p: nat): (x: nat) {
    p * PGSIZE + HEADER
  }

  /** free_cnt counts the arena's free blocks; each of its blocks is free or in use;
      unless exempt, not all are free. */
  ghost predicate SmallOk(h: Heap, p: nat, d: nat, freeCnt: nat, exempt: bool) {
    && d < DESC_CNT && |h.free| == DESC_CNT
    && freeCnt == |h.free[d] * Blocks(p, d)| && Blocks(p, d) <= h.free[d] + h.live.Keys
    && (exempt || freeCnt < BlocksPerArena(d)) && p in h.owner && h.owner[p] == p
  }

  ghost predicate BigOk(h: Heap, p: nat, n: nat) {
    && n >= 1 && (forall q {:trigger q in Pages(p, n)} :: q in Pages(p, n) ==> q in h.owner && h.owner[q] == p)
    && BigBlock(p) in h.live && h.live[BigBlock(p)] == n * PGSIZE - HEADER
  }

  ghost predicate ArenaOk(h: Heap, p: nat, ex: Option<nat>)
    requires p in h.arenas
  {
    match h.arenas[p]
    case Small(d, c) => SmallOk(h, p, d, c, ex == Some(p))
    case Big(n) => BigOk(h, p, n)
  }

  /** A free block of descriptor d belongs to one of its arenas and is not in use. */
  ghost predicate FreeOk(h: Heap, d: nat, x: nat) {
    && d < DESC_CNT && PageOf(x) in h.arenas && h.arenas[PageOf(x)].Small? && h.arenas[PageOf(x)].d == d
    && x in Blocks(PageOf(x), d) && x !in h.live
  }

  /** A block in use is one of its arena's, with the size of that arena's blocks. */
  ghost predicate LiveOk(h: Heap, x: nat)
    requires x in h.live
  {
    && PageOf(x) in h.arenas
    && match h.arenas[PageOf(x)]
       case Small(d, _) => d < DESC_CNT && x in Blocks(PageOf(x), d) && h.live[x] == BlockSize(d)
       case Big(n) => x == BigBlock(PageOf(x)) && h.live[x] == n * PGSIZE - HEADER
  }

  ghost predicate OwnerOk(h: Heap, q: nat)
    requires q in h.owner
  {
    && h.owner[q] in h.arenas && q !in h.other
    && match h.arenas[h.owner[q]]
       case Small(_, _) => q == h.owner[q]
       case Big(n) => q in Pages(h.owner[q], n)
  }

  /** The invariant; the arena in page ex, if any, may be wholly free for the moment. */
  ghost predicate HeapInv(h: Heap, used: set<nat>, ex: Option<nat>) {
    && |h.free| == DESC_CNT
    && (forall p {:trigger ArenaOk(h, p, ex)} :: p in h.arenas ==> ArenaOk(h, p, ex))
    && (forall d, x {:trigger FreeOk(h, d, x)} :: 0 <= d < DESC_CNT && x in h.free[d] ==> FreeOk(h, d, x))
    && (forall x {:trigger LiveOk(h, x)} :: x in h.live ==> LiveOk(h, x))
    && (forall q {:trigger OwnerOk(h, q)} :: q in h.owner ==> OwnerOk(h, q))
    && used == h.owner.Keys + h.other
  }

  /** Blocks in use do not overlap. */
  lemma LiveApart(h: Heap, used: set<nat>, x: nat, y: nat)
    requires HeapInv(h, used, None) && x in h.live && y in h.live && x < y
    ensures x + h.live[x] <= y
  {
    assert LiveOk(h, x) && LiveOk(h, y);
    var p, p' := PageOf(x), PageOf(y);
    if h.arenas[p].Small? {
      BlockInPage(p, h.arenas[p].d, x);
      if p == p' {
        var size := BlockSize(h.arenas[p].d);
        var i := IndexOf(p, size, BlocksPerArena(h.arenas[p].d), x);
        var j := IndexOf(p, size, BlocksPerArena(h.arenas[p].d), y);
        if j < i {
          BlocksApart(p, size, j, i);
        } else if i < j {
          BlocksApart(p, size, i, j);
        }
      }
    } else {
      assert ArenaOk(h, p, None) && ArenaOk(h, p', None);
      assert h.arenas[p'].Big? ==> p' in Pages(p', h.arenas[p'].pageCnt);
      assert p' in Pages(p, h.arenas[p].pageCnt) ==> p' == p;
    }
  }

  /** A block in use lies in pages that belong to its arena. */
  lemma LiveInside(h: Heap, used: set<nat>, x: nat)
    requires HeapInv(h, used, None) && x in h.live
    ensures PageOf(x) in h.arenas && PageOf(x) * PGSIZE + HEADER <= x
    ensures var n := if h.arenas[PageOf(x)].Small? then 1 else h.arenas[PageOf(x)].pageCnt;
      n > 0 && x + h.live[x] <= (PageOf(x) + n) * PGSIZE && Pages(PageOf(x), n) <= h.owner.Keys
  {
    assert LiveOk(h, x);
    var p := PageOf(x);
    assert ArenaOk(h, p, None);
    if h.arenas[p].Small? {
      BlockInPage(p, h.arenas[p].d, x);
      assert Pages(p, 1) == {p};
    }
  }

  /** A block in use is away from pages that are in no arena. */
  lemma LiveAway(h: Heap, used: set<nat>, p: nat, n: nat, x: nat)
    requires HeapInv(h, used, None) && x in h.live && n > 0 && Pages(p, n) !! h.owner.Keys
    ensures x + h.live[x] <= p * PGSIZE || (p + n) * PGSIZE <= x
  {
    LiveInside(h, used, x);
    var p' := PageOf(x);
    var m := if h.arenas[p'].Small? then 1 else h.arenas[p'].pageCnt;
    assert p' in Pages(p', m) && p in Pages(p, n);
    assert p' < p ==> p' + m <= p by {
      assert p in Pages(p', m) <==> p' <= p < p' + m;
    }
  }

  /** Every arena has a block in use. */
  lemma ArenaInUse(h: Heap, used: set<nat>, p: nat) returns (x: nat)
    requires HeapInv(h, used, None) && p in h.arenas
    ensures x in h.live
  {
    assert ArenaOk(h, p, None);
    if h.arenas[p].Big? {
      return BigBlock(p);
    }
    var d := h.arenas[p].d;
    BlocksSize(p, d);
    assert h.free[d] * Blocks(p, d) != Blocks(p, d);
    x :| x in Blocks(p, d) && x !in h.free[d];
  }

  /** When nothing is in use, no page is held. */
  lemma NothingHeld(h: Heap, used: set<nat>)
    requires HeapInv(h, used, None) && h.live == map[]
    ensures h.arenas == map[] && used == h.other
  {
    forall p ensures p !in h.arenas {
      if p in h.arenas {
        var x := ArenaInUse(h, used, p);
        assert false;
      }
    }
    forall q ensures q !in h.owner {
      assert q in h.owner ==> OwnerOk(h, q);
    }
    assert h.arenas.Keys == {} && h.owner.Keys == {};
  }

  // ---------------------------------------------------------------------
  // What malloc() and free() do to it
  // ---------------------------------------------------------------------

  /** Some arena's free_cnt changes. */
  function SetFreeCnt(h: Heap, p: nat, n: nat): (arenas: map<nat, Arena>)
    requires p in h.arenas && h.arenas[p].Small?
  {
    h.arenas[p := h.arenas[p].(freeCnt := n)]
  }

  /** malloc() takes the free block x of descriptor d. */
  ghost function Take(h: Heap, d: nat, x: nat): (r: Heap)
    requires d < DESC_CNT && |h.free| == DESC_CNT && PageOf(x) in h.arenas && h.arenas[PageOf(x)].Small?
    requires h.arenas[PageOf(x)].freeCnt > 0
  {
    h.(free := h.free[d := h.free[d] - {x}], live := h.live[x := BlockSize(d)],
       arenas := SetFreeCnt(h, PageOf(x), h.arenas[PageOf(x)].freeCnt - 1))
  }

  /** free() puts the block x back. */
  ghost function Put(h: Heap, d: nat, x: nat): (r: Heap)
    requires d < DESC_CNT && |h.free| == DESC_CNT && PageOf(x) in h.arenas && h.arenas[PageOf(x)].Small?
  {
    h.(free := h.free[d := h.free[d] + {x}], live := h.live - {x},
       arenas := SetFreeCnt(h, PageOf(x), h.arenas[PageOf(x)].freeCnt + 1))
  }

  /** malloc() makes page p an arena of descriptor d. */
  ghost function AddArena(h: Heap, p: nat, d: nat): (r: Heap)
    requires d < DESC_CNT && |h.free| == DESC_CNT
  {
    h.(arenas := h.arenas[p := Small(d, BlocksPerArena(d))], free := h.free[d := h.free[d] + Blocks(p, d)],
       owner := h.owner[p := p])
  }

  /** free() gives the arena in page p back. */
  ghost function DropArena(h: Heap, p: nat, d: nat): (r: Heap)
    requires d < DESC_CNT && |h.free| == DESC_CNT
  {
    h.(arenas := h.arenas - {p}, free := h.free[d := h.free[d] - Blocks(p, d)], owner := h.owner - {p})
  }

  /** From h to r only the arena in page p changed. */
  ghost predicate SameElsewhere(h: Heap, r: Heap, p: nat) {
    && |r.free| == |h.free| == DESC_CNT && r.other == h.other
    && (forall d, x {:trigger x in r.free[d]} :: 0 <= d < DESC_CNT && PageOf(x) != p ==>
          (x in r.free[d] <==> x in h.free[d]))
    && (forall x {:trigger x in r.live} :: PageOf(x) != p ==> (x in r.live <==> x in h.live))
    && (forall x {:trigger r.live[x]} :: PageOf(x) != p && x in r.live && x in h.live ==> r.live[x] == h.live[x])
    && (forall p' {:trigger p' in r.arenas} :: p' != p ==> (p' in r.arenas <==> p' in h.arenas))
    && (forall p' {:trigger r.arenas[p']} :: p' != p && p' in r.arenas && p' in h.arenas ==>
          r.arenas[p'] == h.arenas[p'])
    && (forall q {:trigger q in r.owner} :: q in h.owner && h.owner[q] != p ==>
          q in r.owner && r.owner[q] == h.owner[q])
    && (forall q {:trigger r.owner[q]} :: q in r.owner && r.owner[q] != p ==> q in h.owner && r.owner[q] == h.owner[q])
  }

  /** What the invariant says about page p. */
  ghost predicate LocalOk(r: Heap, p: nat, ex: Option<nat>) {
    && |r.free| == DESC_CNT && (p in r.arenas ==> ArenaOk(r, p, ex))
    && (forall d, x {:trigger x in r.free[d]} :: 0 <= d < DESC_CNT && x in r.free[d] && PageOf(x) == p ==>
          FreeOk(r, d, x))
    && (forall x {:trigger x in r.live} :: x in r.live && PageOf(x) == p ==> LiveOk(r, x))
    && (forall q {:trigger r.owner[q]} :: q in r.owner && r.owner[q] == p ==> OwnerOk(r, q))
  }

  lemma OtherSmall(h: Heap, r: Heap, p: nat, p': nat, d: nat)
    requires SameElsewhere(h, r, p) && p' != p && d < DESC_CNT && Blocks(p', d) <= h.free[d] + h.live.Keys
    ensures r.free[d] * Blocks(p', d) == h.free[d] * Blocks(p', d) && Blocks(p', d) <= r.free[d] + r.live.Keys
  {
    forall x | x in Blocks(p', d) ensures (x in r.free[d] <==> x in h.free[d]) && (x in r.live <==> x in h.live) {
      BlockInPage(p', d, x);
    }
  }

  lemma OtherArena(h: Heap, r: Heap, p: nat, p': nat, ex: Option<nat>, ex': Option<nat>)
    requires SameElsewhere(h, r, p) && p' in h.arenas && p' != p && ArenaOk(h, p', ex) && ex != Some(p')
    ensures p' in r.arenas && ArenaOk(r, p', ex')
  {
    assert r.arenas[p'] == h.arenas[p'];
    if h.arenas[p'].Small? {
      OtherSmall(h, r, p, p', h.arenas[p'].d);
    } else {
      assert PageOf(BigBlock(p')) == p';
    }
  }

  lemma OtherBlocks(h: Heap, r: Heap, p: nat, d: nat, x: nat)
    requires SameElsewhere(h, r, p) && PageOf(x) != p && d < DESC_CNT
    ensures x in r.free[d] && FreeOk(h, d, x) ==> FreeOk(r, d, x)
    ensures x in r.live ==> x in h.live
    ensures x in r.live && LiveOk(h, x) ==> LiveOk(r, x)
  {
    assert PageOf(x) in r.arenas <==> PageOf(x) in h.arenas;
    assert x in r.live <==> x in h.live;
    if PageOf(x) in r.arenas {
      assert r.arenas[PageOf(x)] == h.arenas[PageOf(x)];
    }
    if x in r.live {
      assert r.live[x] == h.live[x];
    }
  }

  lemma OtherOwner(h: Heap, r: Heap, p: nat, q: nat)
    requires SameElsewhere(h, r, p) && q in r.owner && r.owner[q] != p
    ensures q in h.owner && (OwnerOk(h, q) ==> OwnerOk(r, q))
  {
    assert r.owner[q] in r.arenas <==> r.owner[q] in h.arenas;
    if r.owner[q] in r.arenas {
      assert r.arenas[r.owner[q]] == h.arenas[r.owner[q]];
    }
  }

  /** A change to one arena that leaves that arena consistent keeps the invariant. */
  lemma Rebuild(h: Heap, used: set<nat>, ex: Option<nat>, r: Heap, used': set<nat>, ex': Option<nat>, p: nat)
    requires HeapInv(h, used, ex) && (ex.Some? ==> ex == Some(p)) && (ex'.Some? ==> ex' == Some(p))
    requires SameElsewhere(h, r, p) && LocalOk(r, p, ex') && used' == r.owner.Keys + r.other
    ensures HeapInv(r, used', ex')
  {
    forall p' | p' in r.arenas ensures ArenaOk(r, p', ex') {
      if p' != p {
        assert p' in h.arenas && ArenaOk(h, p', ex);
        OtherArena(h, r, p, p', ex, ex');
      }
    }
    forall d, x | 0 <= d < DESC_CNT && x in r.free[d] ensures FreeOk(r, d, x) {
      if PageOf(x) != p {
        assert x in h.free[d] && FreeOk(h, d, x);
        OtherBlocks(h, r, p, d, x);
      }
    }
    forall x | x in r.live ensures LiveOk(r, x) {
      if PageOf(x) != p {
        OtherBlocks(h, r, p, 0, x);
        assert LiveOk(h, x);
      }
    }
    forall q | q in r.owner ensures OwnerOk(r, q) {
      if r.owner[q] != p {
        OtherOwner(h, r, p, q);
        assert OwnerOk(h, q);
      }
    }
  }

  /** The free blocks of an arena, one less or one more. */
  lemma CountLess(f: set<nat>, b: set<nat>, x: nat)
    requires x in f && x in b
    ensures |(f - {x}) * b| == |f * b| - 1 && |f * b| > 0
  {
    assert (f - {x}) * b == (f * b) - {x};
    assert x in f * b;
  }

  lemma CountMore(f: set<nat>, b: set<nat>, x: nat)
    requires x !in f && x in b
    ensures |(f + {x}) * b| == |f * b| + 1
  {
    assert (f + {x}) * b == (f * b) + {x};
  }

  /** What the invariant says about the arena in page p and its blocks. */
  lemma Local(h: Heap, used: set<nat>, ex: Option<nat>, p: nat)
    requires HeapInv(h, used, ex)
    ensures LocalOk(h, p, ex)
  {
    assert p in h.arenas ==> ArenaOk(h, p, ex);
    forall d, x | 0 <= d < DESC_CNT && x in h.free[d] && PageOf(x) == p ensures FreeOk(h, d, x) {
    }
    forall x | x in h.live && PageOf(x) == p ensures LiveOk(h, x) {
    }
    forall q | q in h.owner && h.owner[q] == p ensures OwnerOk(h, q) {
    }
  }

  /** malloc() with a free block: the arena is no longer wholly free. */
  lemma TakeKeeps(h: Heap, used: set<nat>, ex: Option<nat>, d: nat, x: nat)
    requires HeapInv(h, used, ex) && d < DESC_CNT && x in h.free[d] && (ex.Some? ==> ex == Some(PageOf(x)))
    ensures FreeOk(h, d, x) && h.arenas[PageOf(x)].freeCnt > 0 && x !in h.live
    ensures HeapInv(Take(h, d, x), used, None)
  {
    var p := PageOf(x);
    assert FreeOk(h, d, x) && ArenaOk(h, p, ex);
    Local(h, used, ex, p);
    TakeArena(h, ex, d, x);
    TakeElsewhere(h, d, x);
    TakeBlocks(h, ex, d, x);
    Rebuild(h, used, ex, Take(h, d, x), used, None, p);
  }

  lemma TakeArena(h: Heap, ex: Option<nat>, d: nat, x: nat)
    requires d < DESC_CNT && |h.free| == DESC_CNT && x in h.free[d] && FreeOk(h, d, x) && ArenaOk(h, PageOf(x), ex)
    ensures h.arenas[PageOf(x)].freeCnt > 0 && ArenaOk(Take(h, d, x), PageOf(x), None)
  {
    var p := PageOf(x);
    CountLess(h.free[d], Blocks(p, d), x);
    BlocksSize(p, d);
    SubsetSize(h.free[d] * Blocks(p, d), Blocks(p, d));
  }

  lemma TakeElsewhere(h: Heap, d: nat, x: nat)
    requires d < DESC_CNT && |h.free| == DESC_CNT && PageOf(x) in h.arenas && h.arenas[PageOf(x)].Small?
    requires h.arenas[PageOf(x)].freeCnt > 0
    ensures SameElsewhere(h, Take(h, d, x), PageOf(x))
  {
  }

  lemma TakeBlocks(h: Heap, ex: Option<nat>, d: nat, x: nat)
    requires d < DESC_CNT && |h.free| == DESC_CNT && FreeOk(h, d, x) && h.arenas[PageOf(x)].freeCnt > 0
    requires LocalOk(h, PageOf(x), ex) && ArenaOk(Take(h, d, x), PageOf(x), None)
    ensures LocalOk(Take(h, d, x), PageOf(x), None)
  {
    var p, r := PageOf(x), Take(h, d, x);
    forall d', y | 0 <= d' < DESC_CNT && y in r.free[d'] && PageOf(y) == p ensures FreeOk(r, d', y) {
      assert y in h.free[d'] && FreeOk(h, d', y);
    }
    forall y | y in r.live && PageOf(y) == p ensures LiveOk(r, y) {
      assert y != x ==> y in h.live && LiveOk(h, y);
    }
    forall q | q in r.owner && r.owner[q] == p ensures OwnerOk(r, q) {
      assert h.owner[q] == p && OwnerOk(h, q);
    }
  }

  /** free() of a small block, before the arena is given back. */
  lemma PutKeeps(h: Heap, used: set<nat>, d: nat, x: nat)
    requires HeapInv(h, used, None) && x in h.live && PageOf(x) in h.arenas && h.arenas[PageOf(x)].Small?
    requires h.arenas[PageOf(x)].d == d
    ensures d < DESC_CNT && x !in h.free[d] && HeapInv(Put(h, d, x), used, Some(PageOf(x)))
    ensures h.arenas[PageOf(x)].freeCnt + 1 <= BlocksPerArena(d)
  {
    var p := PageOf(x);
    assert LiveOk(h, x) && ArenaOk(h, p, None);
    assert x in h.free[d] ==> FreeOk(h, d, x);
    CountMore(h.free[d], Blocks(p, d), x);
    Local(h, used, None, p);
    PutElsewhere(h, d, x);
    PutBlocks(h, d, x);
    Rebuild(h, used, None, Put(h, d, x), used, Some(p), p);
  }

  lemma PutElsewhere(h: Heap, d: nat, x: nat)
    requires d < DESC_CNT && |h.free| == DESC_CNT && PageOf(x) in h.arenas && h.arenas[PageOf(x)].Small?
    ensures SameElsewhere(h, Put(h, d, x), PageOf(x))
  {
  }

  lemma PutBlocks(h: Heap, d: nat, x: nat)
    requires d < DESC_CNT && |h.free| == DESC_CNT && x in h.live && LiveOk(h, x) && h.arenas[PageOf(x)].Small?
    requires h.arenas[PageOf(x)].d == d && LocalOk(h, PageOf(x), None)
    requires ArenaOk(Put(h, d, x), PageOf(x), Some(PageOf(x)))
    ensures LocalOk(Put(h, d, x), PageOf(x), Some(PageOf(x)))
  {
    var p, r := PageOf(x), Put(h, d, x);
    forall d', y | 0 <= d' < DESC_CNT && y in r.free[d'] && PageOf(y) == p ensures FreeOk(r, d', y) {
      assert y in h.free[d'] ==> FreeOk(h, d', y);
    }
    forall y | y in r.live && PageOf(y) == p ensures LiveOk(r, y) {
      assert y in h.live && LiveOk(h, y);
    }
    forall q | q in r.owner && r.owner[q] == p ensures OwnerOk(r, q) {
      assert h.owner[q] == p && OwnerOk(h, q);
    }
  }

  lemma ArenaOwned(h: Heap, used: set<nat>, p: nat)
    requires HeapInv(h, used, None) && p in h.arenas
    ensures p in h.owner && h.owner[p] == p
  {
    assert ArenaOk(h, p, None);
    assert h.arenas[p].Big? ==> p in Pages(p, h.arenas[p].pageCnt);
  }

  /** No arena, block or owner is in page p. */
  ghost predicate Unknown(h: Heap, p: nat) {
    && p !in h.arenas && p !in h.owner && p !in h.other && |h.free| == DESC_CNT
    && (forall q {:trigger h.owner[q]} :: q in h.owner ==> h.owner[q] != p)
    && (forall x {:trigger x in h.live} :: x in h.live ==> PageOf(x) != p)
    && (forall d, x {:trigger x in h.free[d]} :: 0 <= d < DESC_CNT && x in h.free[d] ==> PageOf(x) != p)
  }

  /** A page that the page allocator has not given out is in no arena. */
  lemma NewPage(h: Heap, used: set<nat>, p: nat)
    requires HeapInv(h, used, None) && p !in used
    ensures Unknown(h, p)
  {
    if p in h.arenas {
      ArenaOwned(h, used, p);
      assert false;
    }
    forall q | q in h.owner ensures h.owner[q] != p {
      assert OwnerOk(h, q);
    }
    forall x | x in h.live ensures PageOf(x) != p {
      assert LiveOk(h, x);
    }
    forall d, x | 0 <= d < DESC_CNT && x in h.free[d] ensures PageOf(x) != p {
      assert FreeOk(h, d, x);
    }
  }

  /** A page from the page allocator becomes an arena, wholly free at first. */
  lemma AddArenaKeeps(h: Heap, used: set<nat>, p: nat, d: nat)
    requires HeapInv(h, used, None) && p !in used && d < DESC_CNT
    ensures HeapInv(AddArena(h, p, d), used + {p}, Some(p)) && Blocks(p, d) !! h.free[d]
  {
    NewPage(h, used, p);
    AddArenaReady(h, p, d);
    AddArenaUsed(h.owner, used, h.other, p);
    Rebuild(h, used, None, AddArena(h, p, d), used + {p}, Some(p), p);
  }

  lemma AddArenaUsed(owner: map<nat, nat>, used: set<nat>, other: set<nat>, p: nat)
    requires used == owner.Keys + other
    ensures used + {p} == owner[p := p].Keys + other
  {
  }

  lemma AddArenaReady(h: Heap, p: nat, d: nat)
    requires Unknown(h, p) && d < DESC_CNT
    ensures SameElsewhere(h, AddArena(h, p, d), p)
    ensures LocalOk(AddArena(h, p, d), p, Some(p)) && Blocks(p, d) !! h.free[d]
  {
    NewBlocks(h, p, d);
    AddArenaElsewhere(h, p, d);
    AddArenaLocal(h, p, d);
  }

  lemma NewBlocks(h: Heap, p: nat, d: nat)
    requires Unknown(h, p) && d < DESC_CNT
    ensures Blocks(p, d) !! h.free[d]
    ensures forall x {:trigger x in Blocks(p, d)} :: x in Blocks(p, d) ==> PageOf(x) == p && x !in h.live
  {
    forall x | x in Blocks(p, d) ensures PageOf(x) == p {
      BlockInPage(p, d, x);
    }
  }

  lemma AddArenaElsewhere(h: Heap, p: nat, d: nat)
    requires Unknown(h, p) && d < DESC_CNT && forall x {:trigger x in Blocks(p, d)} :: x in Blocks(p, d) ==>
      PageOf(x) == p
    ensures SameElsewhere(h, AddArena(h, p, d), p)
  {
  }

  lemma AddArenaLocal(h: Heap, p: nat, d: nat)
    requires Unknown(h, p) && d < DESC_CNT
    requires forall x {:trigger x in Blocks(p, d)} :: x in Blocks(p, d) ==> PageOf(x) == p && x !in h.live
    ensures LocalOk(AddArena(h, p, d), p, Some(p))
  {
    var r := AddArena(h, p, d);
    BlocksSize(p, d);
    assert r.free[d] * Blocks(p, d) == Blocks(p, d);
    assert ArenaOk(r, p, Some(p));
    forall d', y | 0 <= d' < DESC_CNT && y in r.free[d'] && PageOf(y) == p ensures FreeOk(r, d', y) {
      assert d' == d && y in Blocks(p, d);
    }
  }

  /** All blocks of the arena are free: free() gives it back. */
  lemma DropArenaKeeps(h: Heap, used: set<nat>, p: nat)
    requires HeapInv(h, used, Some(p)) && p in h.arenas && h.arenas[p].Small?
    requires h.arenas[p].d < DESC_CNT && h.arenas[p].freeCnt >= BlocksPerArena(h.arenas[p].d)
    ensures Blocks(p, h.arenas[p].d) <= h.free[h.arenas[p].d]
    ensures p in used && HeapInv(DropArena(h, p, h.arenas[p].d), used - {p}, None)
  {
    var d := h.arenas[p].d;
    assert ArenaOk(h, p, Some(p));
    BlocksSize(p, d);
    SubsetSize(h.free[d] * Blocks(p, d), Blocks(p, d));
    SubsetOfSameSize(h.free[d] * Blocks(p, d), Blocks(p, d));
    Local(h, used, Some(p), p);
    DropArenaLocal(h, p, d);
    assert OwnerOk(h, p);
    Rebuild(h, used, Some(p), DropArena(h, p, d), used - {p}, None, p);
  }

  lemma DropArenaLocal(h: Heap, p: nat, d: nat)
    requires |h.free| == DESC_CNT && d < DESC_CNT && p in h.arenas && h.arenas[p].Small? && h.arenas[p].d == d
    requires LocalOk(h, p, Some(p)) && Blocks(p, d) <= h.free[d]
    ensures SameElsewhere(h, DropArena(h, p, d), p) && LocalOk(DropArena(h, p, d), p, None)
  {
    var r := DropArena(h, p, d);
    forall x | x in Blocks(p, d) ensures PageOf(x) == p {
      BlockInPage(p, d, x);
    }
    forall d', y | 0 <= d' < DESC_CNT && y in r.free[d'] ensures PageOf(y) != p {
      assert y in h.free[d'];
    }
    forall y | y in r.live ensures PageOf(y) != p {
      assert y in h.live && (y !in h.free[d] || PageOf(y) != p);
    }
    forall q | q in r.owner ensures r.owner[q] != p {
      assert h.owner[q] == p ==> OwnerOk(h, q);
    }
  }

  // ---------------------------------------------------------------------
  // Big blocks
  // ---------------------------------------------------------------------

  /** malloc() makes the pages p..p+n one block. */
  ghost function AddBig(h: Heap, p: nat, n: nat): (r: Heap)
    requires n > 0
  {
    h.(arenas := h.arenas[p := Big(n)], live := h.live[BigBlock(p) := n * PGSIZE - HEADER],
       owner := h.owner + map q | q in Pages(p, n) :: p)
  }

  ghost function DropBig(h: Heap, p: nat, n: nat): (r: Heap) {
    h.(arenas := h.arenas - {p}, live := h.live - {BigBlock(p)}, owner := h.owner - Pages(p, n))
  }

  lemma AddBigKeeps(h: Heap, used: set<nat>, p: nat, n: nat)
    requires HeapInv(h, used, None) && n > 0 && Pages(p, n) !! used
    ensures HeapInv(AddBig(h, p, n), used + Pages(p, n), None) && BigBlock(p) !in h.live
  {
    assert p in Pages(p, n) && PageOf(BigBlock(p)) == p;
    NewPage(h, used, p);
    AddBigLocal(h, used, p, n);
    Rebuild(h, used, None, AddBig(h, p, n), used + Pages(p, n), None, p);
  }

  lemma AddBigLocal(h: Heap, used: set<nat>, p: nat, n: nat)
    requires Unknown(h, p) && n > 0 && used == h.owner.Keys + h.other && Pages(p, n) !! used
    ensures SameElsewhere(h, AddBig(h, p, n), p) && LocalOk(AddBig(h, p, n), p, None)
    ensures used + Pages(p, n) == AddBig(h, p, n).owner.Keys + h.other
  {
    var r := AddBig(h, p, n);
    assert PageOf(BigBlock(p)) == p;
    assert ArenaOk(r, p, None);
  }

  lemma DropBigKeeps(h: Heap, used: set<nat>, p: nat)
    requires HeapInv(h, used, None) && p in h.arenas && h.arenas[p].Big?
    ensures Pages(p, h.arenas[p].pageCnt) <= used
    ensures HeapInv(DropBig(h, p, h.arenas[p].pageCnt), used - Pages(p, h.arenas[p].pageCnt), None)
  {
    var n := h.arenas[p].pageCnt;
    assert ArenaOk(h, p, None);
    Local(h, used, None, p);
    forall q | q in Pages(p, n) ensures q in h.owner && q !in h.other && h.owner[q] == p {
      assert OwnerOk(h, q);
    }
    DropBigLocal(h, p, n);
    Rebuild(h, used, None, DropBig(h, p, n), used - Pages(p, n), None, p);
  }

  lemma DropBigLocal(h: Heap, p: nat, n: nat)
    requires LocalOk(h, p, None) && p in h.arenas && h.arenas[p] == Big(n)
    requires forall q :: q in Pages(p, n) ==> q in h.owner && h.owner[q] == p
    ensures SameElsewhere(h, DropBig(h, p, n), p) && LocalOk(DropBig(h, p, n), p, None)
  {
    var r := DropBig(h, p, n);
    assert PageOf(BigBlock(p)) == p;
    forall d, y | 0 <= d < DESC_CNT && y in r.free[d] ensures PageOf(y) != p {
      assert y in h.free[d];
    }
    forall y | y in r.live ensures PageOf(y) != p {
      assert y in h.live;
    }
    forall q | q in r.owner ensures r.owner[q] != p {
      assert q in h.owner && r.owner[q] == h.owner[q];
    }
  }
}
