/** The block allocator: malloc(), realloc() and free() of src/threads/malloc.c. */
module Malloc {
  import opened Options
  import opened Blocks
  import opened DistinctLists
  import opened Palloc
  import opened Words
  import A = Arenas

  datatype Desc = Desc(blockSize: nat, blocksPerArena: nat)

  /** page_cnt of a big block, computed in 32 bits. */
  function PageCnt(size: nat): (n: nat) {
    ((size + A.HEADER + PGSIZE - 1) % WORD) / PGSIZE
  }

  /** The smallest descriptor whose blocks are large enough, or DESC_CNT. */
  function DescFor(size: nat): (d: nat)
    ensures d <= A.DESC_CNT && (d < A.DESC_CNT ==> size <= A.BlockSize(d)) && (d == A.DESC_CNT <==> size > 1024)
  {
    if size <= 16 then 0 else if size <= 32 then 1 else if size <= 64 then 2 else if size <= 128 then 3
    else if size <= 256 then 4 else if size <= 512 then 5 else if size <= 1024 then 6 else 7
  }

  /** The size of the block that malloc (size) returns. */
  function Capacity(size: nat): (n: nat) {
    if DescFor(size) < A.DESC_CNT then A.BlockSize(DescFor(size))
    else if PageCnt(size) == 0 then 0 else PageCnt(size) * PGSIZE - A.HEADER
  }

  /** The size of the block for a request that wraps the page count around. */
  const WRAPPED: nat := 4084

  /** Every request that is too large for 32-bit arithmetic gets the same block, which is too small. */
  lemma TooLarge(size: nat)
    requires 0xFFFF_FFF4 < size < WORD
    ensures Capacity(size) == WRAPPED < size
  {
  }

  /** A block that malloc() returns has room for the request exactly when the request
      is at most 0xFFFF_FFF4 bytes; otherwise the page count wraps around to one. */
  lemma RoomEnough(size: nat)
    requires size < WORD && Capacity(size) > 0
    ensures Capacity(size) >= size <==> size <= 0xFFFF_FFF4
  {
    if size > 1024 && size + A.HEADER + PGSIZE - 1 < WORD {
      var n := PageCnt(size);
      assert n == (size + A.HEADER + PGSIZE - 1) / PGSIZE;
    }
  }

  /** No block wastes more than it must: the smallest blocks are 16 bytes, blocks up to 1024
      bytes are less than twice the request, and larger ones less than a page more. */
  lemma Snug(size: nat)
    requires 0 < size <= 0xFFFF_FFF4
    ensures size <= 16 ==> Capacity(size) == 16
    ensures 16 < size <= 1024 ==> size <= Capacity(size) < 2 * size
    ensures 1024 < size && Capacity(size) > 0 ==> size <= Capacity(size) < size + 4096
  {
    if 1024 < size && size + A.HEADER + PGSIZE - 1 < WORD {
      var n := PageCnt(size);
      assert n == (size + A.HEADER + PGSIZE - 1) / PGSIZE;
    }
  }

  /** What realloc() copies from a block of n bytes fits into the new one exactly when the
      request does not wrap around or the old block is small. */
  lemma CopyFits(n: nat, newSize: nat)
    requires 0 < newSize < WORD && Capacity(newSize) > 0
    ensures (if newSize < n then newSize else n) <= Capacity(newSize) <==> newSize <= 0xFFFF_FFF4 || n <= WRAPPED
  {
    RoomEnough(newSize);
    if newSize > 0xFFFF_FFF4 { TooLarge(newSize); }
  }

  /** The bytes of the blocks in use are the same. */
  ghost predicate SameBytes(live: map<nat, nat>, m: seq<byte>, m': seq<byte>) {
    && |m'| == |m|
    && forall x, a {:trigger live[x], m'[a]} :: x in live && x <= a < x + live[x] && a < |m| ==> m'[a] == m[a]
  }

  // ---------------------------------------------------------------------
  // The loops over the blocks of an arena
  // ---------------------------------------------------------------------

  lemma NextBlock(p: nat, d: nat, i: nat, b: nat)
    requires d < A.DESC_CNT && i < A.BlocksPerArena(d) && b == A.Addr(p, A.BlockSize(d), i)
    ensures b in A.Blocks(p, d) && b !in A.FirstBlocks(p, A.BlockSize(d), i)
    ensures A.FirstBlocks(p, A.BlockSize(d), i + 1) == A.FirstBlocks(p, A.BlockSize(d), i) + {b}
  {
    A.InFirstBlocks(p, A.BlockSize(d), A.BlocksPerArena(d), i);
    A.FirstBlocksSize(p, A.BlockSize(d), i);
  }

  lemma PushOne(ys: seq<nat>, s: set<nat>, p: nat, d: nat, i: nat, b: nat)
    requires d < A.DESC_CNT && i < A.BlocksPerArena(d) && b == A.Addr(p, A.BlockSize(d), i) && s !! A.Blocks(p, d)
    requires ListOf(ys, s + A.FirstBlocks(p, A.BlockSize(d), i))
    ensures ListOf(ys + [b], s + A.FirstBlocks(p, A.BlockSize(d), i + 1))
  {
    NextBlock(p, d, i, b);
    var f := A.FirstBlocks(p, A.BlockSize(d), i);
    ListPush(ys, s + f, b);
    assert (s + f) + {b} == s + (f + {b});
  }

  lemma RemoveOne(ys: seq<nat>, s: set<nat>, p: nat, d: nat, i: nat, b: nat)
    requires d < A.DESC_CNT && i < A.BlocksPerArena(d) && b == A.Addr(p, A.BlockSize(d), i) && A.Blocks(p, d) <= s
    requires ListOf(ys, s - A.FirstBlocks(p, A.BlockSize(d), i))
    ensures ListOf(Removed(ys, b), s - A.FirstBlocks(p, A.BlockSize(d), i + 1))
  {
    NextBlock(p, d, i, b);
    var f := A.FirstBlocks(p, A.BlockSize(d), i);
    ListRemove(ys, s - f, b);
    assert (s - f) - {b} == s - (f + {b});
  }

  /** The loop of malloc() that puts the blocks of a new arena on the free list. */
  method PushBlocks(xs: seq<nat>, p: nat, d: nat, blocks: nat, size: nat, ghost s: set<nat>) returns (ys: seq<nat>)
    requires ListOf(xs, s) && d < A.DESC_CNT && blocks == A.BlocksPerArena(d)
    requires size == A.BlockSize(d) && s !! A.Blocks(p, d)
    ensures ListOf(ys, s + A.Blocks(p, d))
    ensures ys != [] && ys[0] == if xs == [] then A.Addr(p, size, 0) else xs[0]
  {
    ys := xs;
    var i := 0;
    assert s + A.FirstBlocks(p, size, 0) == s;
    while i < blocks
      invariant 0 <= i <= blocks && ListOf(ys, s + A.FirstBlocks(p, size, i))
      invariant if i == 0 then ys == xs else ys != [] && ys[0] == if xs == [] then A.Addr(p, size, 0) else xs[0]
    {
      var b := A.Addr(p, size, i);
      PushOne(ys, s, p, d, i, b);
      ys := ys + [b];
      i := i + 1;
    }
  }

  /** The loop of free() that takes the blocks of an arena off the free list. */
  method RemoveBlocks(xs: seq<nat>, p: nat, d: nat, blocks: nat, size: nat, ghost s: set<nat>) returns (ys: seq<nat>)
    requires ListOf(xs, s) && d < A.DESC_CNT && blocks == A.BlocksPerArena(d)
    requires size == A.BlockSize(d) && A.Blocks(p, d) <= s
    ensures ListOf(ys, s - A.Blocks(p, d))
  {
    ys := xs;
    var i := 0;
    assert s - A.FirstBlocks(p, size, 0) == s;
    while i < blocks
      invariant 0 <= i <= blocks && ListOf(ys, s - A.FirstBlocks(p, size, i))
    {
      var b := A.Addr(p, size, i);
      RemoveOne(ys, s, p, d, i, b);
      ys := Removed(ys, b);
      i := i + 1;
    }
  }

  // ---------------------------------------------------------------------
  // The allocator
  // ---------------------------------------------------------------------

  ghost predicate DescsOk(descs: seq<Desc>, n: nat) {
    |descs| == n <= A.DESC_CNT && forall d :: 0 <= d < n ==> descs[d] == Desc(A.BlockSize(d), A.BlocksPerArena(d))
  }

  /** The free list of every descriptor holds its free blocks, each once. */
  ghost predicate ListsOk(lists: seq<seq<nat>>, free: seq<set<nat>>) {
    |lists| == |free| == A.DESC_CNT && forall d {:trigger lists[d]} :: 0 <= d < A.DESC_CNT ==> ListOf(lists[d], free[d])
  }

  lemma ListsUpdate(lists: seq<seq<nat>>, free: seq<set<nat>>, d: nat, xs: seq<nat>, s: set<nat>)
    requires ListsOk(lists, free) && d < A.DESC_CNT && ListOf(xs, s)
    ensures ListsOk(lists[d := xs], free[d := s])
  {
  }

  /** malloc_init() */
  method InitDescs() returns (descs: seq<Desc>)
    ensures DescsOk(descs, A.DESC_CNT)
  {
    descs := [];
    var blockSize := 16;
    while blockSize < PGSIZE / 2
      invariant |descs| <= A.DESC_CNT && DescsOk(descs, |descs|)
      invariant if |descs| == A.DESC_CNT then blockSize == 2048 else blockSize == A.BlockSize(|descs|)
      decreases PGSIZE - blockSize
    {
      A.BlocksFit(|descs|);
      descs := descs + [Desc(blockSize, (PGSIZE - A.HEADER) / blockSize)];
      blockSize := blockSize * 2;
    }
  }

  /** The search for a descriptor in malloc(). */
  method FindDesc(descs: seq<Desc>, size: nat) returns (d: nat)
    requires DescsOk(descs, A.DESC_CNT)
    ensures d == DescFor(size) && d <= |descs|
    ensures forall i :: 0 <= i < d ==> descs[i].blockSize < size
    ensures d < |descs| ==> size <= descs[d].blockSize
  {
    d := 0;
    while d < |descs| && descs[d].blockSize < size
      invariant 0 <= d <= A.DESC_CNT && forall i :: 0 <= i < d ==> A.BlockSize(i) < size
    {
      d := d + 1;
    }
    assert d > 0 ==> A.BlockSize(d - 1) < size;
  }

  class Allocator {
    const pool: Pool
    const descs: seq<Desc>
    var arenas: map<nat, A.Arena>
    var freeLists: seq<seq<nat>>
    var mem: seq<byte>
    ghost var heap: A.Heap

    /** The invariant; the arena in page ex, if any, may be wholly free for the moment. */
    ghost predicate ValidEx(ex: Option<nat>)
      reads this, pool, pool.usedMap, pool.usedMap.bits
    {
      && pool.Valid() && DescsOk(descs, A.DESC_CNT) && heap.arenas == arenas && ListsOk(freeLists, heap.free)
      && A.HeapInv(heap, pool.used, ex)
      && (pool.basePage + pool.usedMap.bitCnt) * PGSIZE <= |mem|
    }

    ghost predicate Valid()
      reads this, pool, pool.usedMap, pool.usedMap.bits
    {
      ValidEx(None)
    }

    /** malloc_init() over a page pool, some of whose pages others may have. */
    constructor (p: Pool, m: seq<byte>)
      requires p.Valid() && (p.basePage + p.usedMap.bitCnt) * PGSIZE <= |m|
      ensures Valid() && pool == p && mem == m && heap.live == map[] && heap.other == p.used
    {
      var ds := InitDescs();
      pool, descs, arenas, mem := p, ds, map[], m;
      freeLists := [[], [], [], [], [], [], []];
      heap := A.Heap(map[], [{}, {}, {}, {}, {}, {}, {}], map[], map[], p.used);
    }

    /** malloc() makes a new arena for descriptor d, if a page is free. */
    method NewArena(d: nat) returns (ok: bool, ghost p: nat)
      requires Valid() && d < A.DESC_CNT && freeLists[d] == []
      modifies this, pool, pool.usedMap.bits
      ensures !ok ==> Valid() && heap == old(heap) && arenas == old(arenas) && freeLists == old(freeLists)
      ensures !ok ==> pool.used == old(pool.used) && NoRun(pool, 1)
      ensures ok ==> ValidEx(Some(p)) && freeLists[d] != [] && A.PageOf(freeLists[d][0]) == p
      ensures ok ==> heap == A.AddArena(old(heap), p, d)
      ensures SameBytes(old(heap.live), old(mem), mem)
    {
      var page := pool.GetMultiple(1);
      if page.None? {
        return false, 0;
      }
      ok, p := true, page.value;
      assert p in Pages(p, 1) && Pages(p, 1) == {p};
      A.AddArenaKeeps(heap, old(pool.used), p, d);
      var xs := PushBlocks(freeLists[d], page.value, d, descs[d].blocksPerArena, descs[d].blockSize, heap.free[d]);
      A.BlockToArena(p, d, 0);
      ListsUpdate(freeLists, heap.free, d, xs, heap.free[d] + A.Blocks(p, d));
      arenas := arenas[page.value := A.Small(d, descs[d].blocksPerArena)];
      freeLists := freeLists[d := xs];
      heap := A.AddArena(heap, p, d);
    }

    /** malloc() takes the first free block of descriptor d. */
    method TakeBlock(d: nat, ghost ex: Option<nat>) returns (b: nat)
      requires ValidEx(ex) && d < A.DESC_CNT && freeLists[d] != []
      requires (ex.Some? ==> ex == Some(A.PageOf(freeLists[d][0])))
      modifies this
      ensures Valid() && b !in old(heap.live) && b in old(heap.free)[d]
      ensures SameBytes(old(heap.live), old(mem), mem)
      ensures heap.live == old(heap.live)[b := A.BlockSize(d)] && heap.other == old(heap.other)
    {
      b := freeLists[d][0];
      assert ListOf(freeLists[d], heap.free[d]);
      A.TakeKeeps(heap, pool.used, ex, d, b);
      ListsUpdate(freeLists, heap.free, d, freeLists[d][1..], heap.free[d] - {b});
      freeLists := freeLists[d := freeLists[d][1..]];
      var a := arenas[A.PageOf(b)];
      arenas := arenas[A.PageOf(b) := a.(freeCnt := a.freeCnt - 1)];
      heap := A.Take(heap, d, b);
    }

    /** malloc() of a block that is too big for any descriptor. */
    method MallocBig(size: nat) returns (r: Option<nat>)
      requires Valid() && 1024 < size < WORD
      modifies this, pool, pool.usedMap.bits
      ensures Valid() && SameBytes(old(heap.live), old(mem), mem) && heap.other == old(heap.other)
      ensures r.Some? ==> r.value !in old(heap.live) && heap.live == old(heap.live)[r.value := Capacity(size)]
      ensures r.Some? ==> Capacity(size) > 0
      ensures r.None? ==> heap == old(heap) && pool.used == old(pool.used)
      ensures r.None? ==> PageCnt(size) == 0 || NoRun(pool, PageCnt(size))
    {
      var pageCnt := PageCnt(size);
      var page := pool.GetMultiple(pageCnt);
      if page.None? {
        return None;
      }
      A.AddBigKeeps(heap, old(pool.used), page.value, pageCnt);
      arenas := arenas[page.value := A.Big(pageCnt)];
      heap := A.AddBig(heap, page.value, pageCnt);
      r := Some(A.BigBlock(page.value));
    }

    /** malloc(): a block that is not in use, of the size that the request calls for;
        null for an empty request, or when no memory is available. */
    method Malloc(size: nat) returns (r: Option<nat>)
      requires Valid() && size < WORD
      modifies this, pool, pool.usedMap.bits
      ensures Valid() && SameBytes(old(heap.live), old(mem), mem) && heap.other == old(heap.other)
      ensures r.Some? ==>
        size > 0 && r.value !in old(heap.live) && heap.live == old(heap.live)[r.value := Capacity(size)]
      ensures r.Some? ==> Capacity(size) > 0
      ensures r.None? ==> heap == old(heap) && pool.used == old(pool.used)
      ensures r.None? && 0 < size <= 1024 ==> heap.free[DescFor(size)] == {} && NoRun(pool, 1)
      ensures r.None? && 1024 < size ==> PageCnt(size) == 0 || NoRun(pool, PageCnt(size))
    {
      if size == 0 {
        return None;
      }
      var d := FindDesc(descs, size);
      if d == |descs| {
        r := MallocBig(size);
        return;
      }
      assert ListOf(freeLists[d], heap.free[d]);
      ghost var ex := None;
      if freeLists[d] == [] {
        var ok; ghost var p;
        ok, p := NewArena(d);
        if !ok {
          return None;
        }
        ex := Some(p);
      }
      var b := TakeBlock(d, ex);
      r := Some(b);
    }

    /** block_size() of a block in use */
    method BlockSizeOf(b: nat) returns (n: nat)
      requires Valid() && b in heap.live
      ensures n == heap.live[b]
    {
      assert A.LiveOk(heap, b);
      var a := arenas[A.PageOf(b)];
      if a.Small? {
        return descs[a.d].blockSize;
      }
      n := PGSIZE * a.pageCnt - b % PGSIZE;
    }

    /** free() of a block of descriptor d, up to giving the arena back. */
    method PutBlock(b: nat, d: nat)
      requires Valid() && b in heap.live && A.PageOf(b) in arenas
      requires arenas[A.PageOf(b)].Small? && arenas[A.PageOf(b)].d == d
      requires d < A.DESC_CNT
      modifies this
      ensures ValidEx(Some(A.PageOf(b))) && heap == A.Put(old(heap), d, b)
      ensures SameBytes(heap.live, old(mem), mem)
    {
      A.LiveInside(heap, pool.used, b);
      assert A.LiveOk(heap, b);
      InPool(pool, heap, A.PageOf(b));
      OverwriteBlock(heap, pool.used, b, mem, Filler(descs[d].blockSize));
      A.PutKeeps(heap, pool.used, d, b);
      assert ListOf(freeLists[d], heap.free[d]);
      ListPushFront(freeLists[d], heap.free[d], b);
      ListsUpdate(freeLists, heap.free, d, [b] + freeLists[d], heap.free[d] + {b});
      mem := Overwrite(mem, b, Filler(descs[d].blockSize));
      freeLists := freeLists[d := [b] + freeLists[d]];
      var a := arenas[A.PageOf(b)];
      arenas := arenas[A.PageOf(b) := a.(freeCnt := a.freeCnt + 1)];
      heap := A.Put(heap, d, b);
    }

    /** free() gives a wholly free arena back to the page allocator. */
    method DropPage(p: nat, d: nat)
      requires ValidEx(Some(p)) && p in arenas && arenas[p].Small? && arenas[p].d == d && d < A.DESC_CNT
      requires arenas[p].freeCnt >= A.BlocksPerArena(d)
      modifies this, pool, pool.usedMap.bits
      ensures Valid() && heap.live == old(heap.live) && heap.other == old(heap.other)
      ensures SameBytes(heap.live, old(mem), mem)
    {
      A.DropArenaKeeps(heap, pool.used, p);
      assert ListOf(freeLists[d], heap.free[d]) && Pages(p, 1) == {p};
      var xs := RemoveBlocks(freeLists[d], p, d, descs[d].blocksPerArena, descs[d].blockSize, heap.free[d]);
      ListsUpdate(freeLists, heap.free, d, xs, heap.free[d] - A.Blocks(p, d));
      freeLists := freeLists[d := xs];
      arenas := arenas - {p};
      heap := A.DropArena(heap, p, d);
      PoisonPages(heap, pool.used - {p}, p, 1, mem);
      mem := Overwrite(mem, p * PGSIZE, Filler(PGSIZE));
      pool.FreeMultiple(p, 1);
    }

    /** free() of a big block. */
    method FreeBig(p: nat)
      requires Valid() && p in arenas && arenas[p].Big?
      modifies this, pool, pool.usedMap.bits
      ensures Valid() && heap.live == old(heap.live) - {A.BigBlock(p)} && heap.other == old(heap.other)
      ensures SameBytes(heap.live, old(mem), mem)
    {
      var n := arenas[p].pageCnt;
      assert A.ArenaOk(heap, p, None);
      A.DropBigKeeps(heap, pool.used, p);
      assert p in Pages(p, n) && p + n - 1 in Pages(p, n);
      arenas := arenas - {p};
      heap := A.DropBig(heap, p, n);
      PoisonPages(heap, pool.used - Pages(p, n), p, n, mem);
      mem := Overwrite(mem, p * PGSIZE, Filler(n * PGSIZE));
      pool.FreeMultiple(p, n);
    }

    /** free() of a block in use, or of null: only that block is gone, and the bytes of
        the other blocks stay. */
    method Free(b: Option<nat>)
      requires Valid() && (b.Some? ==> b.value in heap.live)
      modifies this, pool, pool.usedMap.bits
      ensures Valid() && heap.other == old(heap.other)
      ensures heap.live == if b.Some? then old(heap.live) - {b.value} else old(heap.live)
      ensures SameBytes(heap.live, old(mem), mem)
    {
      if b.None? {
        return;
      }
      assert A.LiveOk(heap, b.value);
      var p := A.PageOf(b.value);
      if arenas[p].Big? {
        FreeBig(p);
        return;
      }
      var d := arenas[p].d;
      PutBlock(b.value, d);
      if arenas[p].freeCnt >= descs[d].blocksPerArena {
        ghost var m := mem;
        DropPage(p, d);
        SameBytesTrans(heap.live, old(mem), m, mem);
      } else {
        NotWhollyFree(heap, pool.used, p);
      }
    }

    /** memcpy() of the first n bytes of the block src to the block dst. */
    method Copy(dst: nat, src: nat, n: nat)
      requires Valid() && dst in heap.live && src in heap.live
      requires dst != src && n <= heap.live[dst] && n <= heap.live[src]
      modifies this`mem
      ensures Valid() && Copied(old(mem), mem, src, dst, n) && SameBytes(heap.live - {dst}, old(mem), mem)
    {
      InMemory(pool, heap, dst, mem);
      InMemory(pool, heap, src, mem);
      OverwriteBlock(heap, pool.used, dst, mem, mem[src..src + n]);
      mem := Overwrite(mem, dst, mem[src..src + n]);
    }

    /** realloc(): a new block with the first bytes of the old one, which is gone; on
        failure nothing changes.  A request so large that the page count wraps around gets
        WRAPPED bytes, so the old block must not be larger. */
    method Realloc(oldBlock: Option<nat>, newSize: nat) returns (r: Option<nat>)
      requires Valid() && (oldBlock.Some? ==> oldBlock.value in heap.live) && newSize < WORD
      requires oldBlock.Some? && newSize > 0xFFFF_FFF4 ==> heap.live[oldBlock.value] <= WRAPPED
      modifies this, pool, pool.usedMap.bits
      ensures Valid() && heap.other == old(heap.other)
      ensures newSize == 0 ==> r.None? && heap.live == Without(old(heap.live), oldBlock)
      ensures newSize > 0 && r.None? ==> heap == old(heap)
      ensures r.Some? ==> r.value !in old(heap.live) && newSize > 0
      ensures r.Some? ==> (Capacity(newSize) >= newSize <==> newSize <= 0xFFFF_FFF4)
      ensures r.Some? ==> heap.live == Without(old(heap.live), oldBlock)[r.value := Capacity(newSize)]
      ensures r.Some? && oldBlock.Some? ==>
        var n := old(heap.live)[oldBlock.value];
        Copied(old(mem), mem, oldBlock.value, r.value, if newSize < n then newSize else n)
      ensures SameBytes(Without(old(heap.live), oldBlock), old(mem), mem)
    {
      if newSize == 0 {
        Free(oldBlock);
        return None;
      }
      r := Malloc(newSize);
      if r.Some? {
        RoomEnough(newSize);
        CopyFits(if oldBlock.Some? then old(heap.live)[oldBlock.value] else 0, newSize);
        if oldBlock.Some? {
          ghost var m := mem;
          MoveBlock(oldBlock.value, r.value, newSize);
          ghost var n := old(heap.live)[oldBlock.value];
          ReallocBytes(old(heap.live), old(mem), m, mem, oldBlock.value, r.value, Capacity(newSize),
                       if newSize < n then newSize else n);
        }
      }
    }

    /** The last statements of realloc(), when both blocks are there. */
    method MoveBlock(oldBlock: nat, newBlock: nat, newSize: nat)
      requires Valid() && oldBlock in heap.live && newBlock in heap.live
      requires newBlock != oldBlock
      requires (if newSize < heap.live[oldBlock] then newSize else heap.live[oldBlock]) <= heap.live[newBlock]
      modifies this, pool, pool.usedMap.bits
      ensures Valid() && heap.other == old(heap.other) && heap.live == old(heap.live) - {oldBlock}
      ensures var n := old(heap.live)[oldBlock];
        Copied(old(mem), mem, oldBlock, newBlock, if newSize < n then newSize else n)
      ensures SameBytes(old(heap.live) - {oldBlock, newBlock}, old(mem), mem)
    {
      var oldSize := BlockSizeOf(oldBlock);
      var minSize := if newSize < oldSize then newSize else oldSize;
      ghost var live := heap.live;
      Copy(newBlock, oldBlock, minSize);
      ghost var m := mem;
      Free(Some(oldBlock));
      MovedBytes(live, old(mem), m, mem, oldBlock, newBlock, minSize);
    }
  }

  ghost function Without(live: map<nat, nat>, b: Option<nat>): (r: map<nat, nat>) {
    if b.Some? then live - {b.value} else live
  }

  /** The n bytes from src on are now at dst. */
  ghost predicate Copied(m: seq<byte>, m': seq<byte>, src: nat, dst: nat, n: nat) {
    src + n <= |m| && dst + n <= |m'| && m'[dst..dst + n] == m[src..src + n]
  }

  lemma MovedBytes(live: map<nat, nat>, m1: seq<byte>, m2: seq<byte>, m3: seq<byte>, src: nat, dst: nat, n: nat)
    requires src in live && dst in live && src != dst && n <= live[dst]
    requires Copied(m1, m2, src, dst, n) && SameBytes(live - {dst}, m1, m2) && SameBytes(live - {src}, m2, m3)
    ensures Copied(m1, m3, src, dst, n) && SameBytes(live - {src, dst}, m1, m3)
  {
    var rest, l1, l2 := live - {src, dst}, live - {dst}, live - {src};
    forall x, a | x in rest && x <= a < x + rest[x] && a < |m1| ensures m3[a] == m1[a] {
      assert l1[x] == rest[x] && l2[x] == rest[x] && m2[a] == m1[a];
    }
    forall a | dst <= a < dst + n ensures m3[a] == m2[a] {
      assert l2[dst] == live[dst];
    }
    assert m3[dst..dst + n] == m2[dst..dst + n];
  }

  lemma ReallocBytes(live: map<nat, nat>, m1: seq<byte>, m2: seq<byte>, m3: seq<byte>,
                     src: nat, dst: nat, size: nat, n: nat)
    requires src in live && dst !in live && n <= live[src] && SameBytes(live, m1, m2)
    requires Copied(m2, m3, src, dst, n) && SameBytes(live[dst := size] - {src, dst}, m2, m3)
    ensures Copied(m1, m3, src, dst, n) && SameBytes(live - {src}, m1, m3)
  {
    var rest := live - {src};
    assert live[dst := size] - {src, dst} == rest;
    forall x, a | x in rest && x <= a < x + rest[x] && a < |m1| ensures m3[a] == m1[a] {
      assert rest[x] == live[x] && m2[a] == m1[a];
    }
    forall a | src <= a < src + n ensures m2[a] == m1[a] {
      assert src <= a < src + live[src];
    }
    assert m1[src..src + n] == m2[src..src + n];
  }

  /** A block in use lies in memory. */
  lemma InMemory(pool: Pool, h: A.Heap, x: nat, m: seq<byte>)
    requires pool.Valid() && A.HeapInv(h, pool.used, None) && x in h.live
    requires (pool.basePage + pool.usedMap.bitCnt) * PGSIZE <= |m|
    ensures x + h.live[x] <= |m|
  {
    A.LiveInside(h, pool.used, x);
    var p := A.PageOf(x);
    var n := if h.arenas[p].Small? then 1 else h.arenas[p].pageCnt;
    assert p + n - 1 in Pages(p, n);
    assert p + n - 1 in pool.used;
  }

  /** What memset (..., 0xcc, n) writes. */
  function Filler(n: nat): (bs: seq<byte>) {
    seq(n, _ => 0xcc)
  }

  /** The pages of an arena are in the pool. */
  lemma InPool(pool: Pool, h: A.Heap, p: nat)
    requires pool.Valid() && A.HeapInv(h, pool.used, None) && p in h.arenas
    ensures p in h.owner && pool.basePage <= p < pool.basePage + pool.usedMap.bitCnt
  {
    assert A.ArenaOk(h, p, None);
    assert h.arenas[p].Big? ==> p in Pages(p, h.arenas[p].pageCnt);
    assert p in pool.used;
  }

  /** Overwriting one block leaves the others alone. */
  lemma OverwriteBlock(h: A.Heap, used: set<nat>, b: nat, m: seq<byte>, bs: seq<byte>)
    requires A.HeapInv(h, used, None) && b in h.live && |bs| <= h.live[b] && b + |bs| <= |m|
    ensures SameBytes(h.live - {b}, m, Overwrite(m, b, bs))
  {
    var live, m' := h.live - {b}, Overwrite(m, b, bs);
    forall x, a | x in live && x <= a < x + live[x] && a < |m| ensures m'[a] == m[a] {
      if x < b {
        A.LiveApart(h, used, x, b);
      } else {
        A.LiveApart(h, used, b, x);
      }
    }
  }

  /** Overwriting pages that are in no arena leaves all blocks alone. */
  lemma PoisonPages(h: A.Heap, used: set<nat>, p: nat, n: nat, m: seq<byte>)
    requires A.HeapInv(h, used, None) && n > 0 && Pages(p, n) !! h.owner.Keys && (p + n) * PGSIZE <= |m|
    ensures SameBytes(h.live, m, Overwrite(m, p * PGSIZE, Filler(n * PGSIZE)))
  {
    var m' := Overwrite(m, p * PGSIZE, Filler(n * PGSIZE));
    forall x, a | x in h.live && x <= a < x + h.live[x] && a < |m| ensures m'[a] == m[a] {
      A.LiveAway(h, used, p, n, x);
    }
  }

  lemma SameBytesTrans(live: map<nat, nat>, m1: seq<byte>, m2: seq<byte>, m3: seq<byte>)
    requires SameBytes(live, m1, m2) && SameBytes(live, m2, m3)
    ensures SameBytes(live, m1, m3)
  {
    forall x, a | x in live && x <= a < x + live[x] && a < |m1| ensures m3[a] == m1[a] {
      assert m2[a] == m1[a];
    }
  }

  lemma NotWhollyFree(h: A.Heap, used: set<nat>, p: nat)
    requires A.HeapInv(h, used, Some(p)) && p in h.arenas && h.arenas[p].Small? && h.arenas[p].d < A.DESC_CNT
    requires h.arenas[p].freeCnt < A.BlocksPerArena(h.arenas[p].d)
    ensures A.HeapInv(h, used, None)
  {
    forall p' | p' in h.arenas ensures A.ArenaOk(h, p', None) {
      assert A.ArenaOk(h, p', Some(p));
    }
  }
}
