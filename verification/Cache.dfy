/** src/filesys/cache.c: a write-back buffer cache with second-chance eviction in
    front of the block device.  Its lock makes each call one step. */
module Cache {
  import opened Blocks
  import opened Options

  const NUM_SECTORS: nat := 128

  /** (block_sector_t) -1, the mark of an entry that holds nothing. */
  const NO_SECTOR: nat := 0xFFFF_FFFF

  datatype BufferBlock = BufferBlock(dirty: bool, used: bool, accessed: bool, sector: nat, buf: Sector)

  /** Entry i holds sector s. */
  predicate Holds(es: seq<BufferBlock>, i: nat, s: nat) {
    i < |es| && s != NO_SECTOR && es[i].sector == s
  }

  ghost predicate Cached(es: seq<BufferBlock>, s: nat) {
    exists i: nat :: Holds(es, i, s)
  }

  /** Sector s is in the cache, in an entry that was used since eviction last passed it. */
  ghost predicate Recent(es: seq<BufferBlock>, s: nat) {
    exists i: nat :: Holds(es, i, s) && es[i].used
  }

  /** What cache and disk together stand for: p is the plain disk. */
  ghost predicate Represents(es: seq<BufferBlock>, disk: seq<Sector>, p: seq<Sector>) {
    && |p| == |disk| <= NO_SECTOR
    && (forall i :: 0 <= i < |es| && es[i].sector != NO_SECTOR ==>
          es[i].sector < |disk| && p[es[i].sector] == es[i].buf)
    && (forall i :: 0 <= i < |es| && !es[i].dirty && es[i].sector != NO_SECTOR ==> disk[es[i].sector] == es[i].buf)
    && (forall i :: 0 <= i < |es| && es[i].sector == NO_SECTOR ==> !es[i].dirty)
    && (forall i, j :: 0 <= i < j < |es| && es[i].sector != NO_SECTOR ==> es[i].sector != es[j].sector)
    && (forall s :: 0 <= s < |disk| && p[s] != disk[s] ==> exists i: nat :: Holds(es, i, s))
  }

  /** es with the used flags of the first n entries cleared. */
  function Unused(es: seq<BufferBlock>, n: nat): (r: seq<BufferBlock>)
    requires n <= |es|
    ensures |r| == |es|
    ensures forall i :: 0 <= i < |es| ==> r[i] == if i < n then es[i].(used := false) else es[i]
  {
    seq(|es|, i requires 0 <= i < |es| => if i < n then es[i].(used := false) else es[i])
  }

  /** The entry that eviction picks: the first unused one, or the front one when
      all are used. */
  function Victim(es: seq<BufferBlock>): (k: nat)
    ensures k <= |es|
    ensures k < |es| ==> !es[k].used
    ensures forall i :: 0 <= i < k ==> es[i].used
  {
    if es == [] || !es[0].used then 0 else 1 + Victim(es[1..])
  }

  lemma RepresentsUnused(es: seq<BufferBlock>, n: nat, disk: seq<Sector>, p: seq<Sector>)
    requires n <= |es| && Represents(es, disk, p)
    ensures Represents(Unused(es, n), disk, p)
  {
    forall s | 0 <= s < |disk| && p[s] != disk[s] ensures exists i: nat :: Holds(Unused(es, n), i, s) {
      var i: nat :| Holds(es, i, s);
      assert Holds(Unused(es, n), i, s);
    }
  }

  class BufferCache {
    var entries: seq<BufferBlock>  // cache_list
    var disk: seq<Sector>          // fs_device
    ghost var plain: seq<Sector>   // the disk as the users of the cache see it

    ghost predicate Valid()
      reads this
    {
      |entries| == NUM_SECTORS && Represents(entries, disk, plain)
    }

    /** buffer_cache_init() on a device with the given contents. */
    constructor (d: seq<Sector>, buf: Sector)
      requires |d| <= NO_SECTOR
      ensures Valid() && plain == d && disk == d && |entries| == 128
      ensures forall s :: !Cached(entries, s)
    {
      entries := seq(NUM_SECTORS, _ => BufferBlock(false, false, false, NO_SECTOR, buf));
      disk, plain := d, d;
    }

    /** buffer_cache_find() */
    method Find(sector: nat) returns (r: Option<nat>)
      ensures r.Some? ==> r.value < |entries| && entries[r.value].sector == sector
      ensures r.None? ==> forall i :: 0 <= i < |entries| ==> entries[i].sector != sector
    {
      var i := 0;
      while i < |entries|
        invariant 0 <= i <= |entries|
        invariant forall j :: 0 <= j < i ==> entries[j].sector != sector
      {
        if entries[i].sector == sector {
          return Some(i);
        }
        i := i + 1;
      }
      r := None;
    }

    /** buffer_cache_flush() */
    method Flush(i: nat)
      requires Valid() && i < |entries|
      modifies this`entries, this`disk
      ensures Valid()
      ensures entries == old(entries)[i := old(entries)[i].(dirty := false)]
      ensures entries[i].sector != NO_SECTOR ==> disk == old(disk)[entries[i].sector := entries[i].buf]
      ensures entries[i].sector == NO_SECTOR ==> disk == old(disk)
    {
      var e := entries[i];
      if e.dirty {
        disk := disk[e.sector := e.buf];
        entries := entries[i := e.(dirty := false)];
        RepresentsFlush(old(entries), i, old(disk), plain);
      }
    }

    /** The search of buffer_cache_evict(): stops at the first unused entry, or at
        the front one when all are used, after at most NUM_SECTORS + 1 looks. */
    method SecondChance() returns (k: nat, ghost looks: nat)
      requires |entries| == NUM_SECTORS
      modifies this`entries
      ensures entries == Unused(old(entries), Victim(old(entries)))
      ensures k == (if Victim(old(entries)) < NUM_SECTORS then Victim(old(entries)) else 0)
      ensures looks == Victim(old(entries)) + 1 <= NUM_SECTORS + 1
    {
      ghost var es := entries;
      k, looks := 0, 1;
      assert Unused(es, 0) == es;
      while entries[k].used
        invariant 1 <= looks <= NUM_SECTORS + 1 && k == (if looks <= NUM_SECTORS then looks - 1 else 0)
        invariant entries == Unused(es, looks - 1)
        invariant forall i :: 0 <= i < looks - 1 ==> es[i].used
        decreases NUM_SECTORS + 1 - looks
      {
        entries := entries[k := entries[k].(used := false)];
        assert entries == Unused(es, looks);
        k := k + 1;
        if k == |entries| {
          k := 0;
        }
        looks := looks + 1;
      }
      VictimIs(es, looks - 1);
    }

    /** buffer_cache_evict(): the entry found comes back written back and empty. */
    method Evict() returns (k: nat)
      requires Valid()
      modifies this`entries, this`disk
      ensures Valid() && |disk| == old(|disk|)
      ensures k == (if Victim(old(entries)) < NUM_SECTORS then Victim(old(entries)) else 0)
      ensures k < |entries| && entries[k].sector == NO_SECTOR && !entries[k].used
      ensures forall i :: 0 <= i < |entries| && i != k ==> entries[i].sector == old(entries)[i].sector
      ensures forall i, s ::
        0 <= i < |entries| && !old(entries)[i].used && Recent(old(entries), s) ==> Cached(entries, s)
    {
      ghost var looks;
      RepresentsUnused(entries, Victim(entries), disk, plain);
      k, looks := SecondChance();
      if entries[k].dirty {
        Flush(k);
      }
      RepresentsDrop(entries, k, disk, plain);
      entries := entries[k := entries[k].(sector := NO_SECTOR)];
      RecentStays(old(entries), entries, k);
    }

    /** The entry of the given sector, loading it if need be. */
    method Load(sector: nat) returns (k: nat)
      requires Valid() && sector < |disk|
      modifies this`entries, this`disk
      ensures Valid() && |disk| == old(|disk|)
      ensures k < |entries| && entries[k].sector == sector && entries[k].buf == plain[sector]
    {
      var found := Find(sector);
      if found.Some? {
        return found.value;
      }
      k := Evict();
      RepresentsLoad(entries, k, sector, disk, plain);
      entries := entries[k := BufferBlock(false, true, true, sector, disk[sector])];
    }

    /** buffer_cache_read(): what a plain disk would return. */
    method Read(sector: nat, ofs: nat, size: nat) returns (data: seq<byte>)
      requires Valid() && sector < |disk| && ofs + size <= BLOCK_SECTOR_SIZE
      modifies this`entries, this`disk
      ensures Valid() && |disk| == old(|disk|)
      ensures data == plain[sector][ofs..ofs + size] && Recent(entries, sector)
    {
      var k := Load(sector);
      RepresentsTouch(entries, k, disk, plain);
      entries := entries[k := entries[k].(used := true, accessed := true)];
      assert Holds(entries, k, sector);
      data := entries[k].buf[ofs..ofs + size];
    }

    /** buffer_cache_write(): what a plain disk would hold. */
    method Write(sector: nat, source: seq<byte>, ofs: nat)
      requires Valid() && sector < |disk| && ofs + |source| <= BLOCK_SECTOR_SIZE
      modifies this
      ensures Valid() && |disk| == old(|disk|)
      ensures plain == old(plain)[sector := Overwrite(old(plain)[sector], ofs, source)] && Recent(entries, sector)
    {
      var k := Load(sector);
      var data := Overwrite(entries[k].buf, ofs, source);
      RepresentsWrite(entries, k, data, disk, plain);
      plain := plain[sector := data];
      entries := entries[k := BufferBlock(true, true, true, sector, data)];
      assert Holds(entries, k, sector);
    }

    /** buffer_cache_close(): afterwards the disk itself is the plain disk. */
    method Close()
      requires Valid()
      modifies this`entries, this`disk
      ensures Valid() && disk == plain
    {
      var i := 0;
      while i < |entries|
        invariant 0 <= i <= |entries| && Valid()
        invariant forall j :: 0 <= j < i ==> !entries[j].dirty
      {
        if entries[i].sector != NO_SECTOR {
          Flush(i);
        }
        i := i + 1;
      }
      forall s | 0 <= s < |disk| ensures disk[s] == plain[s] {
        if exists j: nat :: Holds(entries, j, s) {
          var j: nat :| Holds(entries, j, s);
          assert plain[s] == entries[j].buf;
        }
      }
    }
  }

  /** Eviction of an unused entry, when there is one, spares the recent sectors. */
  lemma RecentStays(es: seq<BufferBlock>, es': seq<BufferBlock>, k: nat)
    requires |es| == |es'| == NUM_SECTORS && k == (if Victim(es) < NUM_SECTORS then Victim(es) else 0)
    requires forall i :: 0 <= i < |es| && i != k ==> es'[i].sector == es[i].sector
    ensures forall i, s :: 0 <= i < |es| && !es[i].used && Recent(es, s) ==> Cached(es', s)
  {
    forall i, s | 0 <= i < |es| && !es[i].used && Recent(es, s) ensures Cached(es', s) {
      var j: nat :| Holds(es, j, s) && es[j].used;
      assert Holds(es', j, s);
    }
  }

  lemma {:induction false} VictimIs(es: seq<BufferBlock>, n: nat)
    requires n <= |es| && (forall i :: 0 <= i < n ==> es[i].used) && (n < |es| ==> !es[n].used)
    ensures Victim(es) == n
  {
    if n > 0 {
      VictimIs(es[1..], n - 1);
    }
  }

  /** The plain disk is determined by the cache and the disk. */
  lemma RepresentsOne(es: seq<BufferBlock>, disk: seq<Sector>, p: seq<Sector>, q: seq<Sector>)
    requires Represents(es, disk, p) && Represents(es, disk, q)
    ensures p == q
  {
    forall s | 0 <= s < |disk| ensures p[s] == q[s] {
      if exists i: nat :: Holds(es, i, s) {
        var i: nat :| Holds(es, i, s);
        assert p[s] == es[i].buf == q[s];
      }
    }
  }

  /** Emptying a clean entry. */
  lemma RepresentsDrop(es: seq<BufferBlock>, k: nat, disk: seq<Sector>, p: seq<Sector>)
    requires k < |es| && !es[k].dirty && Represents(es, disk, p)
    ensures Represents(es[k := es[k].(sector := NO_SECTOR)], disk, p)
  {
    var es' := es[k := es[k].(sector := NO_SECTOR)];
    forall s | 0 <= s < |disk| && p[s] != disk[s] ensures exists j: nat :: Holds(es', j, s) {
      var j: nat :| Holds(es, j, s);
      assert Holds(es', j, s);
    }
  }

  /** Filling an empty entry from the disk. */
  lemma RepresentsLoad(es: seq<BufferBlock>, k: nat, sector: nat, disk: seq<Sector>, p: seq<Sector>)
    requires k < |es| && es[k].sector == NO_SECTOR && sector < |disk| && Represents(es, disk, p)
    requires forall i :: 0 <= i < |es| ==> es[i].sector != sector
    ensures Represents(es[k := BufferBlock(false, true, true, sector, disk[sector])], disk, p)
  {
    var es' := es[k := BufferBlock(false, true, true, sector, disk[sector])];
    forall s | 0 <= s < |disk| && p[s] != disk[s] ensures exists j: nat :: Holds(es', j, s) {
      var j: nat :| Holds(es, j, s);
      assert Holds(es', j, s);
    }
    assert !exists j: nat :: Holds(es, j, sector);
  }

  /** Writing into an entry. */
  lemma RepresentsWrite(es: seq<BufferBlock>, k: nat, data: Sector, disk: seq<Sector>, p: seq<Sector>)
    requires k < |es| && es[k].sector != NO_SECTOR && Represents(es, disk, p)
    ensures Represents(es[k := BufferBlock(true, true, true, es[k].sector, data)], disk, p[es[k].sector := data])
  {
    var sector := es[k].sector;
    var es', p' := es[k := BufferBlock(true, true, true, sector, data)], p[sector := data];
    forall s | 0 <= s < |disk| && p'[s] != disk[s] ensures exists j: nat :: Holds(es', j, s) {
      if s == sector {
        assert Holds(es', k, s);
      } else {
        var j: nat :| Holds(es, j, s);
        assert Holds(es', j, s);
      }
    }
  }

  /** Marking an entry as in use. */
  lemma RepresentsTouch(es: seq<BufferBlock>, k: nat, disk: seq<Sector>, p: seq<Sector>)
    requires k < |es| && Represents(es, disk, p)
    ensures Represents(es[k := es[k].(used := true, accessed := true)], disk, p)
  {
    var es' := es[k := es[k].(used := true, accessed := true)];
    forall s | 0 <= s < |disk| && p[s] != disk[s] ensures exists j: nat :: Holds(es', j, s) {
      var j: nat :| Holds(es, j, s);
      assert Holds(es', j, s);
    }
  }

  /** Writing a dirty entry back. */
  lemma RepresentsFlush(es: seq<BufferBlock>, i: nat, disk: seq<Sector>, p: seq<Sector>)
    requires i < |es| && es[i].dirty && Represents(es, disk, p)
    ensures Represents(es[i := es[i].(dirty := false)], disk[es[i].sector := es[i].buf], p)
  {
    var es', disk' := es[i := es[i].(dirty := false)], disk[es[i].sector := es[i].buf];
    forall s | 0 <= s < |disk| && p[s] != disk'[s] ensures exists j: nat :: Holds(es', j, s) {
      var j: nat :| Holds(es, j, s);
      assert Holds(es', j, s);
    }
  }

  // ---------------------------------------------------------------------
  // Whole runs
  // ---------------------------------------------------------------------

  datatype Op =
    | ReadOp(sector: nat, ofs: nat, size: nat)
    | WriteOp(sector: nat, source: seq<byte>, ofs: nat)
    | EvictOp
    | FlushOp(entry: nat)

  /** Inside the device and inside a sector. */
  predicate InRange(op: Op, sectors: nat) {
    match op
    case ReadOp(s, ofs, size) => s < sectors && ofs + size <= BLOCK_SECTOR_SIZE
    case WriteOp(s, source, ofs) => s < sectors && ofs + |source| <= BLOCK_SECTOR_SIZE
    case EvictOp => true
    case FlushOp(e) => e < NUM_SECTORS
  }

  /** One operation on a disk without a cache: what it reads, and the disk after it. */
  function PlainStep(p: seq<Sector>, op: Op): (r: (seq<seq<byte>>, seq<Sector>))
    requires InRange(op, |p|)
    ensures |r.1| == |p|
  {
    match op
    case ReadOp(s, ofs, size) => ([p[s][ofs..ofs + size]], p)
    case WriteOp(s, source, ofs) => ([], p[s := Overwrite(p[s], ofs, source)])
    case EvictOp => ([], p)
    case FlushOp(_) => ([], p)
  }

  /** A run of operations on a disk without a cache. */
  function PlainRun(p: seq<Sector>, ops: seq<Op>): (r: (seq<seq<byte>>, seq<Sector>))
    requires forall k :: 0 <= k < |ops| ==> InRange(ops[k], |p|)
    decreases |ops|
  {
    if ops == [] then ([], p)
    else
      var (out, p') := PlainStep(p, ops[0]);
      var (outs, q) := PlainRun(p', ops[1..]);
      (out + outs, q)
  }

  /** Every run of operations on the cache reads what a plain disk would, and
      closing the cache leaves the device as the plain disk would be. */
  method RunAndClose(c: BufferCache, ops: seq<Op>) returns (out: seq<seq<byte>>)
    requires c.Valid() && forall k :: 0 <= k < |ops| ==> InRange(ops[k], |c.disk|)
    modifies c
    ensures c.Valid()
    ensures (out, c.disk) == PlainRun(old(c.plain), ops)
  {
    if ops == [] {
      c.Close();
      return [];
    }
    var first := RunOne(c, ops[0]);
    out := RunAndClose(c, ops[1..]);
    out := first + out;
  }

  method RunOne(c: BufferCache, op: Op) returns (out: seq<seq<byte>>)
    requires c.Valid() && InRange(op, |c.disk|)
    modifies c
    ensures c.Valid() && |c.disk| == old(|c.disk|)
    ensures (out, c.plain) == PlainStep(old(c.plain), op)
  {
    out := [];
    match op {
      case ReadOp(s, ofs, size) =>
        var data := c.Read(s, ofs, size);
        out := [data];
      case WriteOp(s, source, ofs) => c.Write(s, source, ofs);
      case EvictOp => var _ := c.Evict();
      case FlushOp(e) => c.Flush(e);
    }
  }
}
