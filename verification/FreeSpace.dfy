/** Allocating zeroed sectors: src/filesys/free-map.c on top of the bitmap, and
    the loops of inode_allocate() in src/filesys/inode.c. */
module FreeSpace {
  import opened Blocks
  import opened FileLayout
  import opened FiniteSets
  import opened Words
  import C = Cache
  import B = Bitmap

  // ---------------------------------------------------------------------
  // Counting free sectors
  // ---------------------------------------------------------------------

  /** Number of free sectors. */
  function FreeCnt(used: seq<bool>): (n: nat) {
    if used == [] then 0 else FreeCnt(used[1..]) + (if used[0] then 0 else 1)
  }

  lemma {:induction false} FreeCntMark(used: seq<bool>, x: nat)
    requires x < |used| && !used[x]
    ensures FreeCnt(used) == FreeCnt(used[x := true]) + 1
  {
    if x > 0 {
      assert used[x := true][1..] == used[1..][x - 1 := true];
      FreeCntMark(used[1..], x - 1);
    } else {
      assert used[0 := true][1..] == used[1..];
    }
  }

  lemma {:induction false} FreeCntZero(used: seq<bool>)
    requires forall x :: 0 <= x < |used| ==> used[x]
    ensures FreeCnt(used) == 0
  {
    if used != [] {
      FreeCntZero(used[1..]);
    }
  }

  // ---------------------------------------------------------------------
  // Growing: sectors taken and zeroed
  // ---------------------------------------------------------------------

  /** The disk as the cache presents it, and the free map. */
  datatype Store = Store(plain: seq<Sector>, used: seq<bool>)

  ghost predicate StoreOk(st: Store) {
    |st.used| == |st.plain| >= 2 && |st.plain| < WORD && st.used[0] && st.used[1]
  }

  /** t is s after taking the free sectors xs and zeroing them. */
  ghost predicate Grown(s: Store, t: Store, xs: seq<nat>) {
    && |t.plain| == |s.plain| == |s.used| == |t.used|
    && Distinct(xs) && InData(xs, |s.plain|)
    && (forall i :: 0 <= i < |xs| ==> !s.used[xs[i]] && t.plain[xs[i]] == ZeroSector())
    && (forall x :: 0 <= x < |s.used| ==> (t.used[x] <==> s.used[x] || x in xs))
    && (forall x :: 0 <= x < |s.plain| && x !in xs ==> t.plain[x] == s.plain[x])
  }

  lemma GrownStart(s: Store)
    requires StoreOk(s)
    ensures Grown(s, s, [])
  {
  }

  lemma GrownMore(s: Store, t: Store, xs: seq<nat>, x: nat)
    requires StoreOk(s) && Grown(s, t, xs) && 2 <= x < |t.used| && !t.used[x]
    ensures Grown(s, Store(t.plain[x := ZeroSector()], t.used[x := true]), xs + [x])
  {
  }

  lemma GrownTrans(s: Store, t: Store, u: Store, xs: seq<nat>, ys: seq<nat>)
    requires Grown(s, t, xs) && Grown(t, u, ys)
    ensures Grown(s, u, xs + ys)
  {
    assert forall i :: 0 <= i < |xs| ==> xs[i] in xs && t.used[xs[i]] && xs[i] !in ys;
    assert forall x :: x in xs + ys <==> x in xs || x in ys;
  }

  /** t is s after releasing the first n of the sectors xs. */
  ghost predicate ClearedUpTo(s: Store, t: Store, xs: seq<nat>, n: nat)
    requires n <= |xs|
  {
    && t.plain == s.plain && |t.used| == |s.used|
    && (forall x :: 0 <= x < |s.used| && s.used[x] && !t.used[x] ==> x in xs)
    && (forall i :: 0 <= i < |xs| && xs[i] < |t.used| ==> (t.used[xs[i]] <==> n <= i && s.used[xs[i]]))
    && (forall x :: 0 <= x < |s.used| && !s.used[x] ==> !t.used[x])
  }

  ghost predicate Cleared(s: Store, t: Store, xs: seq<nat>) {
    && t.plain == s.plain && |t.used| == |s.used|
    && forall x :: 0 <= x < |s.used| ==> (t.used[x] <==> s.used[x] && x !in xs)
  }

  lemma ClearedMore(s: Store, t: Store, xs: seq<nat>, n: nat)
    requires n < |xs| && Distinct(xs) && ClearedUpTo(s, t, xs, n) && xs[n] < |t.used|
    ensures ClearedUpTo(s, t.(used := t.used[xs[n] := false]), xs, n + 1)
  {
  }

  lemma ClearedTrans(s: Store, t: Store, u: Store, xs: seq<nat>, ys: seq<nat>)
    requires Cleared(s, t, xs) && Cleared(t, u, ys)
    ensures Cleared(s, u, xs + ys)
  {
  }

  /** The result of a successful inode_allocate(): the inode d0 with data sectors ps
      became d with data sectors qs, and exactly the free sectors xs were taken. */
  ghost predicate Allocated(s: Store, t: Store, d0: InodeDisk, ps: seq<nat>, d: InodeDisk, qs: seq<nat>, xs: seq<nat>) {
    && |t.plain| == |s.plain| == |s.used| == |t.used|
    && Distinct(xs) && InData(xs, |s.plain|)
    && (forall x :: x in xs ==> !s.used[x])
    && (forall x :: 0 <= x < |s.used| ==> (t.used[x] <==> s.used[x] || x in xs))
    && (forall x :: 0 <= x < |s.plain| && x !in xs && (x == 0 || x != d.indirectBlock) ==> t.plain[x] == s.plain[x])
    && ps <= qs && Layout(d, t.plain, qs) && InData(qs, |t.plain|)
    && InData(Owned(d, qs), |t.plain|) && Distinct(Owned(d, qs))
    && (d0.indirectBlock != 0 ==> d.indirectBlock == d0.indirectBlock)
    && (forall i :: |ps| <= i < |qs| ==> t.plain[qs[i]] == ZeroSector())
    && (d.length, d.magic, d.directory) == (d0.length, d0.magic, d0.directory)
    && (forall x :: x in Owned(d, qs) <==> x in Owned(d0, ps) || x in xs)
  }

  /** The store after writing the inode d to sector s. */
  ghost function Saved(t: Store, s: nat, d: InodeDisk): (u: Store)
    requires s < |t.plain| && |d.directBlocks| == DIRECT_COUNT
  {
    t.(plain := t.plain[s := InodeSector(d)])
  }

  /** The inode d leads to the data sectors ps; own are these and its index sector. */
  ghost predicate Held(st: Store, d: InodeDisk, ps: seq<nat>, own: set<nat>) {
    && |st.used| == |st.plain| && Layout(d, st.plain, ps) && InData(ps, |st.plain|) && Distinct(ps)
    && (forall i :: 0 <= i < |ps| ==> ps[i] in own && ps[i] != d.indirectBlock)
    && (d.indirectBlock != 0 ==> d.indirectBlock in own)
    && |own| == |ps| + (if d.indirectBlock == 0 then 0 else 1)
    && (forall x :: x in own ==> 2 <= x < |st.used| && st.used[x])
  }

  /** The result of a successful inode_allocate() after the inode was written to
      sector s: its sectors ps and own0 became qs and own, the new ones were free and
      hold zeros, and nothing else changed. */
  ghost predicate Extended(st: Store, u: Store, s: nat, ps: seq<nat>, own0: set<nat>, d: InodeDisk, qs: seq<nat>,
                           own: set<nat>) {
    && |u.plain| == |u.used| == |st.plain| == |st.used|
    && own0 <= own && Held(u, d, qs, own) && s < |u.plain| && u.plain[s] == InodeSector(d)
    && (forall x :: x in own && x !in own0 ==> !st.used[x])
    && (forall x :: 0 <= x < |st.used| ==> (u.used[x] <==> st.used[x] || x in own))
    && (forall x :: 0 <= x < |st.plain| && x != s && x !in own ==> u.plain[x] == st.plain[x])
    && ps <= qs
    && (forall i :: 0 <= i < |ps| ==> u.plain[qs[i]] == st.plain[qs[i]])
    && (forall i :: |ps| <= i < |qs| ==> u.plain[qs[i]] == ZeroSector())
  }

  /** The sectors of an inode are in use, and no two of them are the same. */
  ghost predicate Holding(s: Store, d: InodeDisk, ps: seq<nat>) {
    && |s.used| == |s.plain|
    && Layout(d, s.plain, ps) && InData(Owned(d, ps), |s.plain|) && Distinct(Owned(d, ps))
    && (forall x :: x in Owned(d, ps) ==> s.used[x])
  }

  /** One of the first n pointers is missing. */
  ghost predicate Missing(bs: seq<nat>, n: nat) {
    exists i {:trigger bs[i]} :: 0 <= i < n && i < |bs| && bs[i] == 0
  }

  /** The inode d cannot lead to m data sectors: they are too many for the index, the index
      sector is missing, or a pointer is. */
  ghost predicate Broken(p: seq<Sector>, d: InodeDisk, m: nat) {
    || m > MAX_SECTORS || Missing(d.directBlocks, m)
    || (DIRECT_COUNT < m && (d.indirectBlock == 0 || MissingIn(p, d.indirectBlock, m - DIRECT_COUNT)))
  }

  ghost predicate MissingIn(p: seq<Sector>, ix: nat, n: nat) {
    ix < |p| && Missing(Decode(p[ix]), n)
  }

  /** No list of m data sectors fits a broken inode. */
  lemma BrokenHasNoLayout(p: seq<Sector>, d: InodeDisk, m: nat, ps: seq<nat>)
    requires Broken(p, d, m) && |ps| == m && InData(ps, |p|)
    ensures !Layout(d, p, ps)
  {
  }

  /** What a failed inode_allocate() leaves in the inode d that was d0: it is broken, and an
      index sector is the one it had or was free before. */
  ghost predicate LeftBroken(st: Store, t: Store, d0: InodeDisk, d: InodeDisk, m: nat) {
    && |d.directBlocks| == DIRECT_COUNT && Broken(t.plain, d, m)
    && (d.indirectBlock == d0.indirectBlock || (d.indirectBlock < |st.used| && !st.used[d.indirectBlock]))
  }

  /** The free sectors that growing from n to m data sectors takes. */
  function Needed(n: nat, m: nat): (k: nat) {
    (if n < m then m - n else 0) + (if n <= DIRECT_COUNT < m then 1 else 0)
  }

  /** When a file of n sectors can grow to length bytes. */
  ghost predicate CanGrow(n: nat, length: nat, used: seq<bool>) {
    BytesToSectors(length) <= MAX_SECTORS && Needed(n, BytesToSectors(length)) <= FreeCnt(used)
  }

  /** When a file of length0 bytes can grow, in bytes and free sectors: it is at most 251
      sectors long, and the sectors it lacks are free, one more for the index sector when it
      first needs more than 123. */
  lemma CanGrowExactly(length0: nat, length: nat, n0: nat, n: nat, used: seq<bool>)
    requires Fewest(n0, length0) && Fewest(n, length) && length0 <= length
    ensures CanGrow(BytesToSectors(length0), length, used) <==>
      length <= 251 * 512 && n - n0 + (if n0 <= 123 < n then 1 else 0) <= FreeCnt(used)
  {
    SectorCount(length0, n0);
    SectorCount(length, n);
  }

  /** The longest file needs 252 free sectors, no more and no less. */
  lemma LargestFile(used: seq<bool>)
    ensures CanGrow(0, 251 * 512, used) <==> 252 <= FreeCnt(used)
  {
    CanGrowExactly(0, 251 * 512, 0, 251, used);
  }

  class SectorStore {
    const cache: C.BufferCache
    const freeMap: B.Bits32
    ghost var state: Store

    ghost predicate Valid()
      reads this, cache, freeMap, freeMap.bits
    {
      && cache.Valid() && freeMap.Valid()
      && |cache.disk| == freeMap.bitCnt
      && state.plain == cache.plain && |state.used| == freeMap.bitCnt && StoreOk(state)
      && forall i {:trigger freeMap.View()[i]} :: 0 <= i < freeMap.bitCnt ==> freeMap.View()[i] == state.used[i]
    }

    /** free_map_init() over a cache; FREE_MAP_SECTOR and ROOT_DIR_SECTOR are in use. */
    constructor (c: C.BufferCache)
      requires c.Valid() && 2 <= |c.disk| < WORD
      ensures Valid() && cache == c && fresh(freeMap) && fresh(freeMap.bits)
      ensures state == Store(c.plain, seq(|c.disk|, i => i < 2))
    {
      var fm := new B.Bits32(|c.disk|);
      cache, freeMap := c, fm;
      new;
      freeMap.Mark(0);
      freeMap.Mark(1);
      state := Store(c.plain, freeMap.View());
      assert freeMap.View() == seq(|c.disk|, i => i < 2);
    }

    /** free_map_allocate (1, ...): it fails exactly when no sector is free. */
    method Take() returns (ok: bool, x: nat)
      requires Valid()
      modifies this, freeMap.bits
      ensures Valid()
      ensures ok <==> FreeCnt(old(state).used) > 0
      ensures !ok ==> state == old(state)
      ensures ok ==> 2 <= x < |state.used| && !old(state).used[x]
      ensures ok ==> state == old(state).(used := old(state).used[x := true])
      ensures ok ==> FreeCnt(old(state).used) == FreeCnt(state.used) + 1
    {
      ghost var v := state.used;
      assert freeMap.View() == v;
      var r := freeMap.ScanAndFlip(0, 1, false);
      if r.None? {
        forall j | 0 <= j < |v| ensures v[j] {
          assert !B.AllAre(v, j, 1, false);
        }
        FreeCntZero(v);
        return false, 0;
      }
      x := r.value;
      assert v[x] == false;
      FreeCntMark(v, x);
      assert freeMap.View() == v[x := true];
      state := state.(used := v[x := true]);
      ok := true;
    }

    /** Takes a sector and fills it with zeros. */
    method AllocateZeroed() returns (ok: bool, x: nat)
      requires Valid()
      modifies this, cache, freeMap.bits
      ensures Valid()
      ensures ok <==> FreeCnt(old(state).used) > 0
      ensures !ok ==> state == old(state)
      ensures ok ==> 2 <= x < |state.used| && !old(state).used[x]
      ensures ok ==> state == Store(old(state).plain[x := ZeroSector()], old(state).used[x := true])
      ensures ok ==> FreeCnt(old(state).used) == FreeCnt(state.used) + 1
    {
      ok, x := Take();
      if ok {
        WriteSector(x, ZeroSector());
      }
    }

    method ReadBytes(x: nat, ofs: nat, size: nat) returns (data: seq<byte>)
      requires Valid() && x < |state.plain| && ofs + size <= BLOCK_SECTOR_SIZE
      modifies cache
      ensures Valid() && state == old(state)
      ensures data == state.plain[x][ofs..ofs + size]
    {
      data := cache.Read(x, ofs, size);
    }

    method ReadSector(x: nat) returns (sector: Sector)
      requires Valid() && x < |state.plain|
      modifies cache
      ensures Valid() && state == old(state) && sector == state.plain[x]
    {
      var data := cache.Read(x, 0, BLOCK_SECTOR_SIZE);
      assert data == cache.plain[x];
      sector := data;
    }

    method WriteBytes(x: nat, ofs: nat, source: seq<byte>)
      requires Valid() && x < |state.plain| && ofs + |source| <= BLOCK_SECTOR_SIZE
      modifies this, cache
      ensures Valid()
      ensures state == old(state).(plain := old(state).plain[x := Overwrite(old(state).plain[x], ofs, source)])
    {
      cache.Write(x, source, ofs);
      state := state.(plain := cache.plain);
    }

    method WriteSector(x: nat, sector: Sector)
      requires Valid() && x < |state.plain|
      modifies this, cache
      ensures Valid() && state == old(state).(plain := old(state).plain[x := sector])
    {
      assert Overwrite(cache.plain[x], 0, sector) == sector;
      cache.Write(x, sector, 0);
      state := state.(plain := cache.plain);
    }

    /** free_map_release (x, 1) */
    method Release(x: nat)
      requires Valid() && 2 <= x < |state.used| && state.used[x]
      modifies this, freeMap.bits
      ensures Valid() && state == old(state).(used := old(state).used[x := false])
      ensures FreeCnt(state.used) == FreeCnt(old(state).used) + 1
    {
      ghost var v := state.used;
      assert freeMap.View() == v;
      freeMap.SetMultiple(x, 1, false);
      assert freeMap.View() == v[x := false];
      assert v[x := false][x := true] == v;
      FreeCntMark(v[x := false], x);
      state := state.(used := v[x := false]);
    }

    /** The loops of inode_deallocate(): releases the first n blocks of bs. */
    method ReleaseBlocks(bs: seq<nat>, n: nat)
      requires Valid() && n <= |bs| && Distinct(bs[..n]) && InData(bs[..n], |state.used|)
      requires forall i :: 0 <= i < n ==> state.used[bs[..n][i]]
      modifies this, freeMap.bits
      ensures Valid() && Cleared(old(state), state, bs[..n])
      ensures FreeCnt(state.used) == FreeCnt(old(state).used) + n
    {
      ghost var s, xs := state, bs[..n];
      for i := 0 to n
        invariant Valid() && ClearedUpTo(s, state, xs, i)
        invariant FreeCnt(state.used) == FreeCnt(s.used) + i
      {
        assert bs[i] == xs[i] && state.used[xs[i]];
        ghost var t := state;
        Release(bs[i]);
        ClearedMore(s, t, xs, i);
      }
    }

    /** The loops of inode_allocate() over an array of block pointers: every zero
        among the first ct gets a zeroed sector.  n is the number of pointers that
        are set already. */
    method FillBlocks(bs0: seq<nat>, ct: nat, ghost n: nat) returns (ok: bool, bs: seq<nat>, ghost xs: seq<nat>)
      requires Valid() && ct <= |bs0|
      requires forall i :: 0 <= i < |bs0| ==> (bs0[i] == 0 <==> i >= n)
      modifies this, cache, freeMap.bits
      ensures Valid() && Grown(old(state), state, xs)
      ensures FreeCnt(state.used) + |xs| == FreeCnt(old(state).used)
      ensures ok ==> |xs| == (if n < ct then ct - n else 0) && Filled(bs0, bs, ct, n, xs)
      ensures !ok ==> |xs| < ct - n && FreeCnt(state.used) == 0 && |bs| == |bs0| && Missing(bs, ct)
    {
      ghost var s := state;
      GrownStart(s);
      bs, xs := bs0, [];
      var i := 0;
      while i < ct
        invariant 0 <= i <= ct && Valid() && Grown(s, state, xs)
        invariant FreeCnt(state.used) + |xs| == FreeCnt(s.used)
        invariant |xs| == (if n < i then i - n else 0) && Filled(bs0, bs, i, n, xs)
      {
        if bs[i] == 0 {
          ghost var t := state;
          var x;
          ok, x := AllocateZeroed();
          if !ok {
            return;
          }
          GrownMore(s, t, xs, x);
          bs, xs := bs[i := x], xs + [x];
        }
        i := i + 1;
      }
      ok := true;
    }

    /** The part of inode_allocate() that gives the inode an index sector if it has
        none, and reads it. */
    method PrepareIndex(d0: InodeDisk, ghost ps: seq<nat>) returns (ok: bool, ix: nat, ws: seq<nat>, ghost ys: seq<nat>)
      requires Valid() && Holding(state, d0, ps) && DIRECT_COUNT <= |ps|
      modifies this, cache, freeMap.bits
      ensures Valid() && Grown(old(state), state, ys)
      ensures ok <==> d0.indirectBlock != 0 || FreeCnt(old(state).used) > 0
      ensures FreeCnt(state.used) + |ys| == FreeCnt(old(state).used)
      ensures ok ==> IndexReady(old(state), state, d0, ps, ix, ws, ys)
      ensures !ok ==> ys == [] && d0.indirectBlock == 0
    {
      ghost var s := state;
      OwnedParts(s, d0, ps);
      GrownStart(s);
      ix, ws, ys := d0.indirectBlock, [], [];
      if ix == 0 {
        ok, ix := AllocateZeroed();
        if !ok {
          return;
        }
        ys := [ix];
        GrownMore(s, s, [], ix);
        DecodeZero();
      }
      var sector := ReadSector(ix);
      ok, ws := true, Decode(sector);
      IndexZeros(ws, ps, |s.plain|);
    }

    /** The indirect half of inode_allocate(). */
    method AllocateIndex(d0: InodeDisk, m: nat, ghost ps: seq<nat>)
        returns (ok: bool, d: InodeDisk, ghost qs: seq<nat>, ghost xs: seq<nat>)
      requires Valid() && Holding(state, d0, ps) && DIRECT_COUNT <= |ps| && DIRECT_COUNT < m <= MAX_SECTORS
      modifies this, cache, freeMap.bits
      ensures Valid() && FreeCnt(state.used) + |xs| == FreeCnt(old(state).used)
      ensures ok <==> Needed(|ps|, m) <= FreeCnt(old(state).used)
      ensures ok ==> Allocated(old(state), state, d0, ps, d, qs, xs)
      ensures ok ==> |qs| == (if |ps| < m then m else |ps|) && |xs| == Needed(|ps|, m)
      ensures !ok ==> Grown(old(state), state, xs) && LeftBroken(old(state), state, d0, d, m)
    {
      ghost var s := state;
      d, qs := d0, ps;
      var ix, ws;
      ok, ix, ws, xs := PrepareIndex(d0, ps);
      if !ok {
        NoIndex(s, state, d0, ps, m);
        return;
      }
      ghost var ys, t := xs, state;
      d := d0.(indirectBlock := ix);
      ok, qs, xs := FillIndex(d0, ix, ws, m, ps, s, ys);
      if !ok {
        HalfIndex(s, t, state, d0, ps, ix, ws, ys, m);
      }
    }

    /** Fills the index sector ix, which is ready, and writes it back.  s is the
        store before the index sector was there. */
    method FillIndex(d0: InodeDisk, ix: nat, ws: seq<nat>, m: nat, ghost ps: seq<nat>, ghost s: Store,
                     ghost ys: seq<nat>)
        returns (ok: bool, ghost qs: seq<nat>, ghost xs: seq<nat>)
      requires Valid() && StoreOk(s) && Holding(s, d0, ps) && DIRECT_COUNT <= |ps| && DIRECT_COUNT < m <= MAX_SECTORS
      requires IndexReady(s, state, d0, ps, ix, ws, ys)
      modifies this, cache, freeMap.bits
      ensures Valid() && FreeCnt(state.used) + |xs| == FreeCnt(old(state).used) + |ys|
      ensures ok <==> (if |ps| < m then m - |ps| else 0) <= FreeCnt(old(state).used)
      ensures ok ==> Allocated(s, state, d0, ps, d0.(indirectBlock := ix), qs, xs)
      ensures ok ==> |qs| == (if |ps| < m then m else |ps|) && |xs| == |qs| - |ps| + |ys|
      ensures !ok ==> Grown(s, state, xs) && MissingIn(state.plain, ix, m - DIRECT_COUNT)
    {
      ghost var t := state;
      var bs;
      ok, bs, xs := FillBlocks(ws, m - DIRECT_COUNT, |ps| - DIRECT_COUNT);
      ghost var u := state;
      qs := ps + xs;
      if ok {
        IndexFilled(ws, bs, ps, m, xs, |s.plain|);
        AllocatedIndexed(s, t, u, d0, ps, ix, ws, ys, bs, xs);
        WriteSector(ix, Encode(bs));
      } else {
        GrownTrans(s, t, u, ys, xs);
        StillMissing(t, u, ix, ws, xs, |ps| - DIRECT_COUNT, m - DIRECT_COUNT);
      }
      xs := ys + xs;
    }

    /** inode_allocate(): gives the inode d0, which leads to the sectors ps, enough
        sectors for length bytes.  It succeeds exactly when the file is not too big
        for the index and enough sectors are free. */
    method Allocate(d0: InodeDisk, length: nat, ghost ps: seq<nat>)
        returns (ok: bool, d: InodeDisk, ghost qs: seq<nat>, ghost xs: seq<nat>)
      requires Valid() && Holding(state, d0, ps)
      modifies this, cache, freeMap.bits
      ensures Valid() && FreeCnt(state.used) + |xs| == FreeCnt(old(state).used)
      ensures var m := BytesToSectors(length);
        && (ok <==> m <= MAX_SECTORS && Needed(|ps|, m) <= FreeCnt(old(state).used))
        && (ok ==> |qs| == (if |ps| < m then m else |ps|) && |xs| == Needed(|ps|, m))
      ensures ok ==> Allocated(old(state), state, d0, ps, d, qs, xs)
      ensures ok ==> Fewest(|qs|, length) || (qs == ps && length <= |ps| * 512)
      ensures !ok ==> Grown(old(state), state, xs) && LeftBroken(old(state), state, d0, d, BytesToSectors(length))
    {
      ghost var s := state;
      SectorCount(length, BytesToSectors(length));
      xs := [];
      GrownStart(s);
      var m := BytesToSectors(length);
      if m > MAX_SECTORS {
        return false, d0, ps, [];
      }
      ok, d, qs, xs := AllocateDirect(d0, if m < DIRECT_COUNT then m else DIRECT_COUNT, ps);
      if !ok || m <= DIRECT_COUNT {
        return;
      }
      var d1 := d;
      ghost var t, qs1, xs1 := state, qs, xs;
      HoldingAfter(s, t, d0, ps, d1, qs1, xs1);
      ok, d, qs, xs := AllocateIndex(d1, m, qs1);
      if ok {
        OwnedParts(t, d1, qs1);
        AllocatedTrans(s, t, state, d0, ps, d1, qs1, xs1, d, qs, xs);
      } else {
        assert Grown(s, t, xs1);
        GrownTrans(s, t, state, xs1, xs);
      }
      xs := xs1 + xs;
    }

    /** get_index_sector(), for a direct or a single indirect index. */
    method GetIndexSector(d: InodeDisk, index: nat, ghost ps: seq<nat>, ghost own: set<nat>) returns (x: nat)
      requires Valid() && Held(state, d, ps, own) && index < |ps|
      modifies cache
      ensures Valid() && x == ps[index]
    {
      if index < DIRECT_COUNT {
        return d.directBlocks[index];
      }
      var sector := ReadSector(d.indirectBlock);
      var ws := Decode(sector);
      x := ws[index - DIRECT_COUNT];
    }

    /** The direct loop of inode_deallocate(). */
    method ReleaseDirect(d: InodeDisk, n: nat, ghost ps: seq<nat>, ghost own: set<nat>)
      requires Valid() && Held(state, d, ps, own) && n == (if |ps| > DIRECT_COUNT then DIRECT_COUNT else |ps|)
      modifies this, freeMap.bits
      ensures Valid() && Cleared(old(state), state, ps[..n])
      ensures FreeCnt(state.used) == FreeCnt(old(state).used) + n
    {
      assert d.directBlocks[..n] == ps[..n];
      PartOf(state, ps, own, 0, n);
      assert ps[0..n] == ps[..n];
      ReleaseBlocks(d.directBlocks, n);
    }

    /** The indirect loop of inode_deallocate(), and releasing the index sector. */
    method ReleaseIndirect(d: InodeDisk, n: nat, ghost ps: seq<nat>, ghost own: set<nat>, ghost st: Store)
      requires Valid() && Held(st, d, ps, own) && |ps| == DIRECT_COUNT + n && n > 0
      requires Cleared(st, state, ps[..DIRECT_COUNT])
      modifies this, cache, freeMap.bits
      ensures Valid() && Freed(st, state, own)
      ensures FreeCnt(state.used) == FreeCnt(old(state).used) + n + 1
    {
      HalfFreed(st, state, d, ps, own);
      ghost var t := state;
      var sector := ReadSector(d.indirectBlock);
      var ws := Decode(sector);
      assert ws[..n] == ps[DIRECT_COUNT..];
      ReleaseBlocks(ws, n);
      ghost var u := state;
      RestFreed(st, t, u, d, ps, own);
      Release(d.indirectBlock);
      AllFreed(st, u, state, d, ps, own);
    }

    /** inode_deallocate(): releases exactly the sectors that the inode owns. */
    method Deallocate(d: InodeDisk, length: nat, ghost ps: seq<nat>, ghost own: set<nat>)
      requires Valid() && Held(state, d, ps, own) && |ps| == BytesToSectors(length)
      modifies this, cache, freeMap.bits
      ensures Valid() && Freed(old(state), state, own)
      ensures FreeCnt(state.used) == FreeCnt(old(state).used) + |own|
    {
      ghost var st := state;
      var sectorCt := BytesToSectors(length);
      var directCt := if sectorCt > DIRECT_COUNT then DIRECT_COUNT else sectorCt;
      var indirectCt := sectorCt - directCt;
      ReleaseDirect(d, directCt, ps, own);
      if indirectCt > 0 {
        ReleaseIndirect(d, indirectCt, ps, own, st);
      } else {
        HoldingOf(st, d, ps, own);
        assert ps[..directCt] == ps == Owned(d, ps);
      }
    }

    /** Releases the inode in sector s with everything it owns. */
    method FreeInode(s: nat, d: InodeDisk, ghost ps: seq<nat>, ghost own: set<nat>)
      requires Valid() && Held(state, d, ps, own) && |ps| == BytesToSectors(d.length)
      requires 2 <= s < |state.used| && state.used[s] && s !in own
      modifies this, cache, freeMap.bits
      ensures Valid() && Freed(old(state), state, own + {s})
      ensures FreeCnt(state.used) == FreeCnt(old(state).used) + |own| + 1
    {
      Release(s);
      Deallocate(d, d.length, ps, own);
    }

    /** inode_allocate(), then writing the inode to sector s with the new length. */
    method Extend(s: nat, d0: InodeDisk, length: nat, ghost ps: seq<nat>, ghost own0: set<nat>)
        returns (ok: bool, d: InodeDisk, ghost qs: seq<nat>, ghost own: set<nat>)
      requires Valid() && Held(state, d0, ps, own0) && s < |state.plain| && state.used[s] && s !in own0 && length < WORD
      modifies this, cache, freeMap.bits
      ensures Valid() && own0 <= own && FreeCnt(state.used) + |own - own0| == FreeCnt(old(state).used)
      ensures ok <==> CanGrow(|ps|, length, old(state).used)
      ensures ok ==> |own - own0| == Needed(|ps|, BytesToSectors(length))
      ensures ok ==> |qs| == (if |ps| < BytesToSectors(length) then BytesToSectors(length) else |ps|)
      ensures ok ==> d.length == length && d.directory == d0.directory && d.magic == d0.magic
      ensures ok ==> s !in own && Extended(old(state), state, s, ps, own0, d, qs, own)
      ensures !ok ==> Wasted(old(state), state, own - own0)
      ensures !ok ==> LeftBroken(old(state), state, d0, d, BytesToSectors(length))
    {
      ok, d, qs, own := AllocateFor(s, d0, length, ps, own0);
      if ok {
        WriteSector(s, InodeSector(d));
      }
    }

    method AllocateFor(s: nat, d0: InodeDisk, length: nat, ghost ps: seq<nat>, ghost own0: set<nat>)
        returns (ok: bool, d: InodeDisk, ghost qs: seq<nat>, ghost own: set<nat>)
      requires Valid() && Held(state, d0, ps, own0) && s < |state.plain| && state.used[s] && s !in own0 && length < WORD
      modifies this, cache, freeMap.bits
      ensures Valid() && own0 <= own && FreeCnt(state.used) + |own - own0| == FreeCnt(old(state).used)
      ensures ok <==> CanGrow(|ps|, length, old(state).used)
      ensures ok ==> |own - own0| == Needed(|ps|, BytesToSectors(length))
      ensures ok ==> |qs| == (if |ps| < BytesToSectors(length) then BytesToSectors(length) else |ps|)
      ensures ok ==> d.length == length && d.directory == d0.directory && d.magic == d0.magic
      ensures ok ==> |d.directBlocks| == DIRECT_COUNT && s < |state.plain|
      ensures ok ==> s !in own && Extended(old(state), Saved(state, s, d), s, ps, own0, d, qs, own)
      ensures !ok ==> Wasted(old(state), state, own - own0)
      ensures !ok ==> LeftBroken(old(state), state, d0, d, BytesToSectors(length))
    {
      ghost var st := state;
      ghost var xs;
      HoldingOf(st, d0, ps, own0);
      ok, d, qs, xs := Allocate(d0, length, ps);
      own := own0 + Elements(xs);
      NewSectors(st, own0, xs);
      if ok {
        ExtendedOf(st, state, s, d0, ps, own0, d, qs, xs, length);
        d := d.(length := length);
      } else {
        WastedOf(st, state, xs);
      }
    }

    /** The direct half of inode_allocate(). */
    method AllocateDirect(d0: InodeDisk, ct: nat, ghost ps: seq<nat>)
        returns (ok: bool, d: InodeDisk, ghost qs: seq<nat>, ghost xs: seq<nat>)
      requires Valid() && Holding(state, d0, ps) && ct <= DIRECT_COUNT
      modifies this, cache, freeMap.bits
      ensures Valid() && FreeCnt(state.used) + |xs| == FreeCnt(old(state).used)
      ensures ok <==> Needed(|ps|, ct) <= FreeCnt(old(state).used)
      ensures ok ==> Allocated(old(state), state, d0, ps, d, qs, xs)
      ensures ok ==> |qs| == (if |ps| < ct then ct else |ps|) && |xs| == Needed(|ps|, ct)
      ensures Grown(old(state), state, xs)
      ensures !ok ==> d.indirectBlock == d0.indirectBlock && |d.directBlocks| == DIRECT_COUNT
      ensures !ok ==> Missing(d.directBlocks, ct)
    {
      ghost var s := state;
      OwnedParts(s, d0, ps);
      var bs;
      ok, bs, xs := FillBlocks(d0.directBlocks, ct, |ps|);
      d, qs := d0.(directBlocks := bs), ps + xs;
      if ok {
        if |ps| < ct {
          AllocatedDirect(s, state, d0, ps, ct, bs, xs);
        } else {
          AllocatedNothing(s, state, d0, ps, ct, bs, xs);
          assert qs == ps;
        }
      }
    }
  }

  /** bs is bs0 with the pointers n..ct set to xs. */
  ghost predicate Filled(bs0: seq<nat>, bs: seq<nat>, ct: nat, n: nat, xs: seq<nat>) {
    && |bs| == |bs0| && |xs| == (if n < ct then ct - n else 0)
    && forall i :: 0 <= i < |bs0| ==> bs[i] == if n <= i < ct then xs[i - n] else bs0[i]
  }

  lemma DistinctConcat(xs: seq<nat>, ys: seq<nat>)
    requires Distinct(xs) && Distinct(ys) && forall y :: y in ys ==> y !in xs
    ensures Distinct(xs + ys)
  {
    var zs := xs + ys;
    forall i, j | 0 <= i < j < |zs| ensures zs[i] != zs[j] {
      assert zs[j] in if j < |xs| then xs else ys;
    }
  }

  /** The data sectors of an inode without an index sector. */
  lemma OwnedDirect(s: Store, d: InodeDisk, ps: seq<nat>)
    requires Holding(s, d, ps) && |ps| <= DIRECT_COUNT
    ensures Owned(d, ps) == ps && InData(ps, |s.plain|) && Distinct(ps)
    ensures forall x :: x in ps ==> s.used[x]
  {
  }

  /** The case without an index sector to write: only direct pointers were added. */
  lemma AllocatedDirect(s: Store, t: Store, d0: InodeDisk, ps: seq<nat>, ct: nat, bs: seq<nat>, xs: seq<nat>)
    requires StoreOk(s) && Holding(s, d0, ps) && Grown(s, t, xs) && |ps| < ct <= DIRECT_COUNT
    requires Filled(d0.directBlocks, bs, ct, |ps|, xs)
    ensures Allocated(s, t, d0, ps, d0.(directBlocks := bs), ps + xs, xs)
  {
    var d, qs := d0.(directBlocks := bs), ps + xs;
    OwnedDirect(s, d0, ps);
    DistinctConcat(ps, xs);
    assert Owned(d, qs) == qs;
    assert Layout(d, t.plain, qs) by {
      assert forall i :: 0 <= i < DIRECT_COUNT ==> bs[i] == if i < |qs| then qs[i] else 0;
    }
  }

  lemma AllocatedNothing(s: Store, t: Store, d0: InodeDisk, ps: seq<nat>, ct: nat, bs: seq<nat>, xs: seq<nat>)
    requires StoreOk(s) && Holding(s, d0, ps) && Grown(s, t, xs) && ct <= |ps| && ct <= DIRECT_COUNT
    requires Filled(d0.directBlocks, bs, ct, |ps|, xs)
    ensures t == s && Allocated(s, t, d0, ps, d0.(directBlocks := bs), ps, xs)
  {
    OwnedParts(s, d0, ps);
    assert xs == [] && t.plain == s.plain && t.used == s.used && bs == d0.directBlocks;
  }

  lemma OwnedParts(s: Store, d: InodeDisk, ps: seq<nat>)
    requires Holding(s, d, ps)
    ensures Distinct(ps) && InData(ps, |s.plain|) && forall x :: x in ps ==> s.used[x]
    ensures d.indirectBlock != 0 ==>
      2 <= d.indirectBlock < |s.used| && s.used[d.indirectBlock] && d.indirectBlock !in ps
  {
    var o := Owned(d, ps);
    assert forall i :: 0 <= i < |ps| ==> o[i] == ps[i] && o[i] in o;
    if d.indirectBlock != 0 {
      assert o[|ps|] == d.indirectBlock && o[|ps|] in o;
    }
  }

  lemma OwnedDistinct(d: InodeDisk, qs: seq<nat>, n: nat)
    requires d.indirectBlock != 0 && 2 <= d.indirectBlock < n && d.indirectBlock !in qs && Distinct(qs) && InData(qs, n)
    ensures Distinct(Owned(d, qs)) && InData(Owned(d, qs), n)
  {
    DistinctConcat(qs, [d.indirectBlock]);
  }

  /** What inode_allocate() has done once the index sector ix is there: ix is new
      exactly when the inode had none. */
  ghost predicate IndexReady(s: Store, t: Store, d0: InodeDisk, ps: seq<nat>, ix: nat, ws: seq<nat>, ys: seq<nat>) {
    && Grown(s, t, ys) && 2 <= ix < |t.used| && t.used[ix] && ix !in ps
    && ws == Decode(t.plain[ix]) && IndexHolds(ws, ps) && (forall i :: 0 <= i < |ws| ==> ws[i] < WORD)
    && (forall i :: 0 <= i < |ws| ==> (ws[i] == 0 <==> i >= |ps| - DIRECT_COUNT))
    && (if d0.indirectBlock == 0 then ys == [ix] else ys == [] && ix == d0.indirectBlock)
  }

  lemma NoIndex(s: Store, t: Store, d0: InodeDisk, ps: seq<nat>, m: nat)
    requires Holding(s, d0, ps) && d0.indirectBlock == 0 && DIRECT_COUNT < m
    ensures LeftBroken(s, t, d0, d0, m)
  {
  }

  lemma HalfIndex(s: Store, t: Store, u: Store, d0: InodeDisk, ps: seq<nat>, ix: nat, ws: seq<nat>, ys: seq<nat>,
                  m: nat)
    requires Holding(s, d0, ps) && IndexReady(s, t, d0, ps, ix, ws, ys) && DIRECT_COUNT < m
    requires MissingIn(u.plain, ix, m - DIRECT_COUNT)
    ensures LeftBroken(s, u, d0, d0.(indirectBlock := ix), m)
  {
    assert ys == [ix] ==> ys[0] == ix;
  }

  /** Filling the pointers in memory does not change the index sector. */
  lemma StillMissing(t: Store, u: Store, ix: nat, ws: seq<nat>, xs: seq<nat>, n: nat, ct: nat)
    requires Grown(t, u, xs) && ix < |t.used| && t.used[ix] && ws == Decode(t.plain[ix])
    requires n < ct && n < |ws| && ws[n] == 0
    ensures MissingIn(u.plain, ix, ct)
  {
    assert ix !in xs;
    assert Decode(u.plain[ix])[n] == 0;
  }

  lemma IndexZeros(ws: seq<nat>, ps: seq<nat>, n: nat)
    requires IndexHolds(ws, ps) && InData(ps, n)
    ensures forall i :: 0 <= i < |ws| ==> (ws[i] == 0 <==> i >= |ps| - DIRECT_COUNT)
  {
  }

  /** The pointers in the index sector after filling it. */
  lemma IndexFilled(ws: seq<nat>, ws': seq<nat>, ps: seq<nat>, m: nat, xs: seq<nat>, n: nat)
    requires DIRECT_COUNT < m <= MAX_SECTORS && DIRECT_COUNT <= |ps| <= MAX_SECTORS && IndexHolds(ws, ps)
    requires Filled(ws, ws', m - DIRECT_COUNT, |ps| - DIRECT_COUNT, xs) && InData(xs, n) && n < WORD
    requires forall i :: 0 <= i < |ws| ==> ws[i] < WORD
    ensures IndexHolds(ws', ps + xs) && Decode(Encode(ws')) == ws'
    ensures |ps + xs| == if |ps| < m then m else |ps|
  {
    var qs := ps + xs;
    forall j | 0 <= j < INDIRECT_COUNT ensures ws'[j] == if DIRECT_COUNT + j < |qs| then qs[DIRECT_COUNT + j] else 0 {
      if |ps| <= DIRECT_COUNT + j < m {
        assert qs[DIRECT_COUNT + j] == xs[DIRECT_COUNT + j - |ps|];
      }
    }
    forall j | 0 <= j < |ws'| ensures ws'[j] < WORD {
    }
    DecodeEncode(ws');
  }

  lemma AllocatedIndexed(s: Store, t: Store, u: Store, d0: InodeDisk, ps: seq<nat>, ix: nat, ws: seq<nat>,
                         ys: seq<nat>, ws': seq<nat>, xs: seq<nat>)
    requires StoreOk(s) && Holding(s, d0, ps) && DIRECT_COUNT <= |ps| && IndexReady(s, t, d0, ps, ix, ws, ys)
    requires Grown(t, u, xs) && |ws'| == INDIRECT_COUNT && Decode(Encode(ws')) == ws' && IndexHolds(ws', ps + xs)
    requires DIRECT_COUNT < |ps + xs| <= MAX_SECTORS
    ensures Allocated(s, u.(plain := u.plain[ix := Encode(ws')]), d0, ps, d0.(indirectBlock := ix), ps + xs, ys + xs)
  {
    var d, qs, v := d0.(indirectBlock := ix), ps + xs, u.(plain := u.plain[ix := Encode(ws')]);
    OwnedParts(s, d0, ps);
    assert forall x :: x in ps ==> t.used[x];
    DistinctConcat(ps, xs);
    GrownTrans(s, t, u, ys, xs);
    assert ix !in xs && forall i :: 0 <= i < |xs| ==> xs[i] in xs;
    OwnedDistinct(d, qs, |s.plain|);
    assert Layout(d, v.plain, qs);
    OwnedIndexed(d0, ps, ix, ys, xs);
  }

  lemma OwnedIndexed(d0: InodeDisk, ps: seq<nat>, ix: nat, ys: seq<nat>, xs: seq<nat>)
    requires ix != 0 && if d0.indirectBlock == 0 then ys == [ix] else ys == [] && ix == d0.indirectBlock
    ensures forall x :: x in Owned(d0.(indirectBlock := ix), ps + xs) <==> x in Owned(d0, ps) || x in ys + xs
  {
  }

  /** The two halves of inode_allocate() together. */
  lemma AllocatedTrans(s: Store, t: Store, u: Store, d0: InodeDisk, ps: seq<nat>, d1: InodeDisk, qs: seq<nat>,
                       xs: seq<nat>, d: InodeDisk, rs: seq<nat>, ys: seq<nat>)
    requires Allocated(s, t, d0, ps, d1, qs, xs) && Allocated(t, u, d1, qs, d, rs, ys)
    requires forall x :: x in qs ==> t.used[x]
    ensures Allocated(s, u, d0, ps, d, rs, xs + ys)
  {
    DistinctConcat(xs, ys);
    forall i | |ps| <= i < |rs| ensures u.plain[rs[i]] == ZeroSector() {
      if i < |qs| {
        assert rs[i] == qs[i] && qs[i] in qs && qs[i] !in ys;
        var o := Owned(d, rs);
        assert o[i] == rs[i] && (d.indirectBlock != 0 ==> o[|rs|] == d.indirectBlock);
      }
    }
  }

  lemma HoldingAfter(s: Store, t: Store, d0: InodeDisk, ps: seq<nat>, d: InodeDisk, qs: seq<nat>, xs: seq<nat>)
    requires Holding(s, d0, ps) && Allocated(s, t, d0, ps, d, qs, xs)
    ensures Holding(t, d, qs)
  {
  }

  /** Sectors xs that a failed inode_allocate() took: no other sector changed. */
  ghost predicate Wasted(st: Store, t: Store, xs: set<nat>) {
    && |t.plain| == |t.used| == |st.plain| == |st.used|
    && (forall x :: x in xs ==> x < |st.used| && !st.used[x])
    && (forall x :: 0 <= x < |st.used| ==> (t.used[x] <==> st.used[x] || x in xs))
    && (forall x :: 0 <= x < |st.plain| && x !in xs ==> t.plain[x] == st.plain[x])
  }

  lemma {:induction false} SetOf(xs: seq<nat>)
    requires Distinct(xs)
    ensures |Elements(xs)| == |xs|
  {
    if xs != [] {
      var n := |xs| - 1;
      SetOf(xs[..n]);
      assert Elements(xs) == Elements(xs[..n]) + {xs[n]};
      assert xs[n] !in xs[..n];
    }
  }

  lemma HoldingOf(st: Store, d: InodeDisk, ps: seq<nat>, own: set<nat>)
    requires Held(st, d, ps, own)
    ensures Holding(st, d, ps) && own == Elements(Owned(d, ps))
  {
    var o := Owned(d, ps);
    assert Distinct(o);
    SetOf(o);
    SubsetOfSameSize(Elements(o), own);
  }

  /** The sectors of the inode after inode_allocate(). */
  lemma HeldAfter(st: Store, t: Store, d0: InodeDisk, ps: seq<nat>, own0: set<nat>, d: InodeDisk, qs: seq<nat>,
                  xs: seq<nat>)
    requires Held(st, d0, ps, own0) && Allocated(st, t, d0, ps, d, qs, xs)
    ensures Held(t, d, qs, own0 + Elements(xs)) && own0 + Elements(xs) == Elements(Owned(d, qs))
  {
    HoldingOf(st, d0, ps, own0);
    HoldingAfter(st, t, d0, ps, d, qs, xs);
    assert own0 + Elements(xs) == Elements(Owned(d, qs));
    SetOf(Owned(d, qs));
    OwnedParts(t, d, qs);
    InElements(d, qs);
  }

  lemma InElements(d: InodeDisk, qs: seq<nat>)
    ensures forall i :: 0 <= i < |qs| ==> qs[i] in Elements(Owned(d, qs))
    ensures d.indirectBlock != 0 ==> d.indirectBlock in Elements(Owned(d, qs))
  {
    var o := Owned(d, qs);
    assert forall i :: 0 <= i < |qs| ==> o[i] == qs[i];
    assert d.indirectBlock != 0 ==> o[|qs|] == d.indirectBlock;
  }

  /** Writing a sector that is not the inode's own data keeps its layout. */
  lemma HeldSaved(t: Store, s: nat, d: InodeDisk, qs: seq<nat>, own: set<nat>, length: nat)
    requires Held(t, d, qs, own) && s < |t.plain| && s !in own && length < WORD
    ensures Held(Saved(t, s, d.(length := length)), d.(length := length), qs, own)
  {
  }

  /** The new sectors are not among the old ones. */
  lemma NewSectors(st: Store, own0: set<nat>, xs: seq<nat>)
    requires Distinct(xs) && forall x :: x in own0 ==> x < |st.used| && st.used[x]
    requires forall x :: x in xs ==> x < |st.used| && !st.used[x]
    ensures (own0 + Elements(xs)) - own0 == Elements(xs) && |Elements(xs)| == |xs|
  {
    SetOf(xs);
  }

  lemma WastedOf(st: Store, t: Store, xs: seq<nat>)
    requires Grown(st, t, xs)
    ensures Wasted(st, t, Elements(xs))
  {
    assert forall x :: x in Elements(xs) <==> x in xs;
  }

  /** inode_allocate() keeps the old data sectors, and the new ones are zero. */
  lemma DataAfter(st: Store, t: Store, d0: InodeDisk, ps: seq<nat>, own0: set<nat>, d: InodeDisk, qs: seq<nat>,
                  xs: seq<nat>, i: nat)
    requires Held(st, d0, ps, own0) && Allocated(st, t, d0, ps, d, qs, xs) && i < |qs|
    ensures t.plain[qs[i]] == if i < |ps| then st.plain[qs[i]] else ZeroSector()
  {
    var o := Owned(d, qs);
    assert o[i] == qs[i] && (d.indirectBlock != 0 ==> o[|qs|] == d.indirectBlock);
    if i < |ps| {
      assert ps[i] == qs[i] && ps[i] in own0;
    }
  }

  lemma FrameAfter(st: Store, t: Store, s: nat, own: set<nat>, d0: InodeDisk, ps: seq<nat>, d: InodeDisk,
                   qs: seq<nat>, xs: seq<nat>, x: nat)
    requires Allocated(st, t, d0, ps, d, qs, xs) && own == Elements(Owned(d, qs)) && x < |st.plain| && x !in own
    ensures t.plain[x] == st.plain[x] && t.used[x] == st.used[x]
  {
    InElements(d, qs);
    assert x !in Owned(d, qs);
  }

  lemma ExtendedOf(st: Store, t: Store, s: nat, d0: InodeDisk, ps: seq<nat>, own0: set<nat>,
                   d: InodeDisk, qs: seq<nat>, xs: seq<nat>, length: nat)
    requires Held(st, d0, ps, own0) && Allocated(st, t, d0, ps, d, qs, xs) && length < WORD
    requires s < |st.used| && st.used[s] && s !in own0
    ensures var d', own := d.(length := length), own0 + Elements(xs);
      s !in own && Extended(st, Saved(t, s, d'), s, ps, own0, d', qs, own)
  {
    var own := own0 + Elements(xs);
    HeldAfter(st, t, d0, ps, own0, d, qs, xs);
    HeldSaved(t, s, d, qs, own, length);
    forall i | 0 <= i < |qs| ensures t.plain[qs[i]] == if i < |ps| then st.plain[qs[i]] else ZeroSector() {
      DataAfter(st, t, d0, ps, own0, d, qs, xs, i);
    }
    forall x | 0 <= x < |st.plain| && x !in own ensures t.plain[x] == st.plain[x] && t.used[x] == st.used[x] {
      FrameAfter(st, t, s, own, d0, ps, d, qs, xs, x);
    }
    ExtendedParts(st, t, s, ps, own0, d, qs, own, length);
  }

  lemma ExtendedParts(st: Store, t: Store, s: nat, ps: seq<nat>, own0: set<nat>, d: InodeDisk, qs: seq<nat>,
                      own: set<nat>, length: nat)
    requires |t.plain| == |t.used| == |st.plain| == |st.used| && s < |st.used| && s !in own
    requires Held(t, d, qs, own) && Held(Saved(t, s, d.(length := length)), d.(length := length), qs, own)
    requires own0 <= own && ps <= qs && forall x :: x in own && x !in own0 ==> !st.used[x]
    requires forall i :: 0 <= i < |qs| ==> t.plain[qs[i]] == if i < |ps| then st.plain[qs[i]] else ZeroSector()
    requires forall x :: 0 <= x < |st.plain| && x !in own ==> t.plain[x] == st.plain[x] && t.used[x] == st.used[x]
    ensures Extended(st, Saved(t, s, d.(length := length)), s, ps, own0, d.(length := length), qs, own)
  {
  }

  // ---------------------------------------------------------------------
  // Releasing
  // ---------------------------------------------------------------------

  /** Exactly the sectors xs were released. */
  ghost predicate Freed(s: Store, t: Store, xs: set<nat>) {
    && t.plain == s.plain && |t.used| == |s.used|
    && forall x {:trigger t.used[x]} :: 0 <= x < |s.used| ==> (t.used[x] <==> s.used[x] && x !in xs)
  }

  lemma PartOf(st: Store, ps: seq<nat>, own: set<nat>, a: nat, b: nat)
    requires a <= b <= |ps| && Distinct(ps) && InData(ps, |st.used|)
    requires forall i :: 0 <= i < |ps| ==> ps[i] in own
    requires forall x :: x in own ==> x < |st.used| && st.used[x]
    ensures Distinct(ps[a..b]) && InData(ps[a..b], |st.used|)
    ensures forall i :: 0 <= i < b - a ==> st.used[ps[a..b][i]]
  {
  }

  /** After the direct blocks are released the other ones are still in use. */
  lemma HalfFreed(st: Store, t: Store, d: InodeDisk, ps: seq<nat>, own: set<nat>)
    requires Held(st, d, ps, own) && |ps| > DIRECT_COUNT && Cleared(st, t, ps[..DIRECT_COUNT])
    ensures Distinct(ps[DIRECT_COUNT..]) && InData(ps[DIRECT_COUNT..], |t.used|)
    ensures forall i :: 0 <= i < |ps| - DIRECT_COUNT ==> t.used[ps[DIRECT_COUNT..][i]]
    ensures 2 <= d.indirectBlock < |t.used| && t.used[d.indirectBlock]
    ensures IndexHolds(Decode(t.plain[d.indirectBlock]), ps)
  {
    var a, b := ps[..DIRECT_COUNT], ps[DIRECT_COUNT..];
    forall i | 0 <= i < |b| ensures t.used[b[i]] && 2 <= b[i] < |t.used| {
      assert b[i] == ps[DIRECT_COUNT + i];
      assert forall j :: 0 <= j < |a| ==> a[j] == ps[j] && a[j] != b[i];
      assert b[i] !in a;
    }
    assert forall j :: 0 <= j < |a| ==> a[j] == ps[j] && a[j] != d.indirectBlock;
    assert d.indirectBlock !in a;
  }

  lemma RestFreed(st: Store, t: Store, u: Store, d: InodeDisk, ps: seq<nat>, own: set<nat>)
    requires Held(st, d, ps, own) && |ps| > DIRECT_COUNT
    requires Cleared(st, t, ps[..DIRECT_COUNT]) && Cleared(t, u, ps[DIRECT_COUNT..])
    ensures Cleared(st, u, ps) && 2 <= d.indirectBlock < |u.used| && u.used[d.indirectBlock]
  {
    ClearedTrans(st, t, u, ps[..DIRECT_COUNT], ps[DIRECT_COUNT..]);
    assert ps[..DIRECT_COUNT] + ps[DIRECT_COUNT..] == ps;
    assert d.indirectBlock !in ps;
  }

  lemma AllFreed(st: Store, u: Store, v: Store, d: InodeDisk, ps: seq<nat>, own: set<nat>)
    requires Held(st, d, ps, own) && |ps| > DIRECT_COUNT && Cleared(st, u, ps) && d.indirectBlock < |u.used|
    requires v == u.(used := u.used[d.indirectBlock := false])
    ensures Freed(st, v, own)
  {
    HoldingOf(st, d, ps, own);
    assert forall x :: x in own <==> x in ps || x == d.indirectBlock;
  }
}
