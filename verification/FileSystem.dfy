/** The operations on inodes: src/filesys/inode.c. */
module FileSystem {
  import opened Blocks
  import opened FileLayout
  import opened FreeSpace
  import opened Inodes

  /** struct inode, without its list element and its sector number, by which the
      table of open inodes is indexed. */
  datatype OpenInode = OpenInode(openCnt: nat, removed: bool, denyWriteCnt: nat, data: InodeDisk)

  /** What a read of size bytes at offset gives. */
  function Clip(c: seq<byte>, offset: nat, size: nat): (r: seq<byte>)
    ensures |r| <= size
  {
    if offset >= |c| then [] else if offset + size <= |c| then c[offset..offset + size] else c[offset..]
  }

  /** How many bytes one iteration of inode_read_at() or inode_write_at() moves. */
  function ChunkSize(length: nat, size: nat, offset: nat): (n: nat)
    ensures offset < length && size > 0 ==> n > 0
    ensures n <= size && offset % BLOCK_SECTOR_SIZE + n <= BLOCK_SECTOR_SIZE
    ensures offset < length ==> offset + n <= length
  {
    if offset >= length then 0 else
      var inodeLeft, sectorLeft := length - offset, BLOCK_SECTOR_SIZE - offset % BLOCK_SECTOR_SIZE;
      var minLeft := if inodeLeft < sectorLeft then inodeLeft else sectorLeft;
      if size < minLeft then size else minLeft
  }

  /** A chunk continues a read that has given buffer so far. */
  lemma ClipMore(c: seq<byte>, offset: nat, buffer: seq<byte>, left: nat, data: seq<byte>)
    requires left > 0 && buffer == Clip(c, offset, |buffer|)
    requires data == Clip(c, offset + |buffer|, ChunkSize(|c|, left, offset + |buffer|))
    ensures |data| <= left && buffer + data == Clip(c, offset, |buffer + data|)
    ensures data == [] ==> buffer == Clip(c, offset, |buffer| + left)
  {
    if offset < |c| <= offset + |buffer| {
      assert c[offset..offset + |buffer|] == c[offset..];
    }
  }

  /** What a write of source at offset makes of a file: the gap is filled with zeros. */
  function Written(c: seq<byte>, offset: nat, source: seq<byte>): (r: seq<byte>)
    ensures |r| == if offset + |source| > |c| then offset + |source| else |c|
  {
    var n := offset + |source|;
    Overwrite(if n > |c| then c + Zeros(n - |c|) else c, offset, source)
  }

  /** What a write does, byte by byte. */
  lemma WrittenAt(c: seq<byte>, offset: nat, source: seq<byte>, k: nat)
    requires k < |Written(c, offset, source)|
    ensures Written(c, offset, source)[k] ==
      if offset <= k < offset + |source| then source[k - offset] else if k < |c| then c[k] else 0
  {
  }

  /** Every byte of c from the offset on that is asked for is in the buffer, and no other. */
  ghost predicate IsRead(buffer: seq<byte>, c: seq<byte>, offset: nat, size: nat) {
    && |buffer| <= size && (offset + |buffer| <= |c| || buffer == [])
    && (|buffer| < size ==> offset + |buffer| >= |c|)
    && forall i {:trigger buffer[i]} :: 0 <= i < |buffer| ==> buffer[i] == c[offset + i]
  }

  lemma ReadBytes(c: seq<byte>, offset: nat, size: nat)
    ensures IsRead(Clip(c, offset, size), c, offset, size)
  {
  }

  /** A read of what was just written gives it back. */
  lemma ReadYourWrite(c: seq<byte>, offset: nat, source: seq<byte>)
    ensures Clip(Written(c, offset, source), offset, |source|) == source
  {
    var w := Written(c, offset, source);
    assert |source| > 0 ==> w[offset..offset + |source|] == source;
  }

  /** Two writes next to each other are one. */
  lemma OverwriteTwice(c: seq<byte>, o: nat, b: seq<byte>, k: nat, n: nat)
    requires o + |b| <= |c| && k + n <= |b|
    ensures Overwrite(Overwrite(c, o, b[..k]), o + k, b[k..][..n]) == Overwrite(c, o, b[..k + n])
  {
  }

  /** The in-memory copy of an inode agrees with the disk.  The free map and the
      root directory are never removed. */
  ghost predicate OpenOk(s: nat, o: OpenInode, inodes: map<nat, Meta>) {
    && s in inodes && o.data == inodes[s].data
    && 1 <= o.openCnt && o.denyWriteCnt <= o.openCnt && (o.removed ==> 2 <= s)
  }

  ghost predicate AllOpenOk(open: map<nat, OpenInode>, inodes: map<nat, Meta>) {
    forall s :: s in open ==> OpenOk(s, open[s], inodes)
  }

  /** c describes the disk and agrees with the open inodes. */
  ghost predicate Consistent(st: Store, open: map<nat, OpenInode>, c: Catalog) {
    FsOk(st, c) && AllOpenOk(open, c.inodes)
  }

  /** A file that grew from length0 to length bytes took the sectors that the longer one needs
      and the shorter one does not, and the index sector if it first needs more than 123. */
  ghost predicate Taken(length0: nat, length: nat, used0: seq<bool>, used: seq<bool>) {
    forall n0, n {:trigger Fewest(n0, length0), Fewest(n, length)} :: Fewest(n0, length0) && Fewest(n, length) ==>
      FreeCnt(used) + n - n0 + (if n0 <= 123 < n then 1 else 0) == FreeCnt(used0)
  }

  lemma TakenOf(length0: nat, length: nat, used0: seq<bool>, used: seq<bool>)
    requires length0 <= length
    requires FreeCnt(used) + Needed(BytesToSectors(length0), BytesToSectors(length)) == FreeCnt(used0)
    ensures Taken(length0, length, used0, used)
  {
    LongerNeedsMore(length0, length);
    forall n0, n | Fewest(n0, length0) && Fewest(n, length)
      ensures FreeCnt(used) + n - n0 + (if n0 <= 123 < n then 1 else 0) == FreeCnt(used0)
    {
      SectorCount(length0, n0);
      SectorCount(length, n);
    }
  }

  /** The inode in sector s is broken when it could not grow and is written all the same. */
  lemma GrowthBroken(st: Store, t: Store, cat: Catalog, c: Catalog, s: nat, d: InodeDisk, length: nat)
    requires FsOk(st, cat) && FsOk(t, c) && s in cat.inodes && c.inodes == cat.inodes
    requires LeftBroken(st, t, cat.inodes[s].data, d, BytesToSectors(length))
    ensures s < |t.plain| && |d.directBlocks| == DIRECT_COUNT
    ensures var d' := d.(length := length); Broken(Saved(t, s, d').plain, d', BytesToSectors(length))
  {
    assert Good(st, s, cat.inodes[s]) && Good(t, s, c.inodes[s]);
    BrokenWritten(st, t, cat.inodes[s].data, d, s, length, cat.inodes[s].own);
  }

  /** No file can be longer than 251 sectors, however many are free. */
  lemma LongestFile(n: nat, used: seq<bool>)
    ensures !CanGrow(n, 251 * BLOCK_SECTOR_SIZE + 1, used)
  {
  }

  /** On a full disk an empty file cannot get its first byte. */
  lemma FullDisk(used: seq<bool>)
    requires forall x :: 0 <= x < |used| ==> used[x]
    ensures !CanGrow(0, 1, used)
  {
    FreeCntZero(used);
  }

  lemma BrokenInconsistent(st: Store, open: map<nat, OpenInode>, c: Catalog, s: nat)
    requires s in open && Broken(st.plain, open[s].data, BytesToSectors(open[s].data.length))
    ensures !Consistent(st, open, c)
  {
    if Consistent(st, open, c) {
      assert OpenOk(s, open[s], c.inodes);
      assert Good(st, s, c.inodes[s]);
      BrokenNotGood(st, s, c.inodes[s]);
    }
  }

  /** Taking sectors that no file has leaves the files as they are. */
  lemma GrownAllGood(st: Store, t: Store, c: Catalog, xs: set<nat>)
    requires AllGood(st, c) && FilesOk(st.plain, c) && Wasted(st, t, xs)
    ensures AllGood(t, c.(spare := c.spare + xs)) && FilesOk(t.plain, c.(spare := c.spare + xs))
  {
    forall s | s in c.inodes
      ensures Good(t, s, c.inodes[s]) && FileOf(t.plain, c.inodes[s]) == FileOf(st.plain, c.inodes[s])
    {
      KeepFile(st, t, s, c.inodes[s]);
    }
  }

  lemma UsedMore(u: seq<bool>, v: seq<bool>, owner: map<nat, nat>, spare: set<nat>, xs: set<nat>)
    requires UsedExact(u, owner, spare) && |v| == |u| && forall x :: x in xs ==> x < |u| && !u[x]
    requires forall x :: 0 <= x < |u| ==> (v[x] <==> u[x] || x in xs)
    ensures UsedExact(v, owner, spare + xs)
  {
    forall x | x in xs ensures x !in owner {
      assert !u[x];
    }
  }

  /** Sectors that no file has got are spare; a failed inode_allocate() loses some so. */
  lemma SpareOk(st: Store, t: Store, c: Catalog, xs: set<nat>)
    requires FsOk(st, c) && Wasted(st, t, xs)
    ensures FsOk(t, c.(spare := c.spare + xs))
  {
    GrownAllGood(st, t, c, xs);
    UsedMore(st.used, t.used, c.owner, c.spare, xs);
  }

  lemma FreeIsNoInode(st: Store, c: Catalog, x: nat)
    requires FsOk(st, c) && x < |st.used| && !st.used[x]
    ensures x !in c.spare && x !in c.files
  {
    assert x in c.inodes ==> OwnedBy(c.owner, x, c.inodes[x]);
  }

  /** A new inode can grow from nothing. */
  lemma EmptyGrowable(st: Store, c: Catalog, sector: nat, d0: InodeDisk, length: nat)
    requires FsOk(st, c) && sector in c.spare && IsInodeDisk(d0)
    requires d0.directBlocks == seq(DIRECT_COUNT, _ => 0) && d0.indirectBlock == d0.doubleIndirectBlock == 0
    ensures sector !in c.inodes && sector !in c.files && Growable(st, c, sector, d0, [], 0)
    ensures Content(st.plain, [], 0) + Zeros(length) == Zeros(length)
  {
    SpareIsNoInode(st, c, sector);
  }

  lemma SpareIsNoInode(st: Store, c: Catalog, x: nat)
    requires FsOk(st, c) && x in c.spare
    ensures x < |st.used| && st.used[x] && x !in c.inodes
  {
    assert x in c.inodes ==> OwnedBy(c.owner, x, c.inodes[x]);
  }

  class FileSystem {
    const store: SectorStore
    var open: map<nat, OpenInode>
    ghost var cat: Catalog

    ghost predicate Valid()
      reads this, store, store.cache, store.freeMap, store.freeMap.bits
    {
      store.Valid() && Consistent(store.state, open, cat)
    }

    /** A freshly formatted device: the first two sectors are in use, nothing else. */
    constructor (st: SectorStore)
      requires st.Valid() && forall x :: 0 <= x < |st.state.used| ==> (st.state.used[x] <==> x < 2)
      ensures Valid() && store == st && open == map[] && cat == Catalog(map[], map[], {0, 1}, map[])
    {
      store, open, cat := st, map[], Catalog(map[], map[], {0, 1}, map[]);
    }

    /** free_map_allocate (1, ...) as callers of inode_create() use it. */
    method Reserve() returns (ok: bool, x: nat)
      requires Valid()
      modifies this`cat, store, store.freeMap.bits
      ensures Valid()
      ensures ok <==> FreeCnt(old(store.state.used)) > 0
      ensures ok ==> x !in old(cat.spare) && x !in cat.files && cat == old(cat).(spare := old(cat.spare) + {x})
      ensures !ok ==> cat == old(cat)
    {
      ghost var st := store.state;
      ok, x := store.Take();
      if ok {
        FreeIsNoInode(st, cat, x);
        SpareOk(st, store.state, cat, {x});
        cat := cat.(spare := cat.spare + {x});
      }
    }

    /** inode_create(): a new file of zeros in a sector reserved for it.  memory says
        whether calloc() succeeds. */
    method Create(sector: nat, length: nat, directory: bool, memory: bool) returns (success: bool)
      requires Valid() && sector in cat.spare && length < 0x8000_0000
      modifies this`cat, store, store.cache, store.freeMap.bits
      ensures Valid()
      ensures success <==> memory && CanGrow(0, length, old(store.state.used))
      ensures success ==> cat.files == old(cat.files)[sector := Zeros(length)]
      ensures success ==> cat.spare == old(cat.spare) - {sector} && sector !in old(cat.files)
      ensures success ==> sector in cat.inodes && cat.inodes[sector].data.directory == directory
      ensures success ==> cat.inodes[sector].data.magic == 0x494e4f44 && cat.inodes[sector].data.length == length
      ensures success ==> Taken(0, length, old(store.state.used), store.state.used)
      ensures !success ==> cat.(spare := old(cat.spare)) == old(cat) && old(cat.spare) <= cat.spare
    {
      if !memory {
        return false;
      }
      var d0 := InodeDisk(length, INODE_MAGIC, directory, seq(DIRECT_COUNT, _ => 0), 0, 0);
      ghost var st := store.state;
      EmptyGrowable(st, cat, sector, d0, length);
      var d; ghost var m, c;
      success, d, m, c := GrowInode(sector, d0, length, [], 0, Zeros(length));
      OpenKept(open, cat.inodes, sector, m);
      if success { TakenOf(0, length, st.used, store.state.used); }
      cat := c;
    }

    /** inode_open(); memory says whether malloc() succeeds. */
    method Open(s: nat, memory: bool) returns (ok: bool)
      requires Valid() && s in cat.inodes
      modifies this`open, store.cache
      ensures Valid() && (ok <==> s in old(open) || memory)
      ensures ok ==> open == old(open)[s := if s in old(open) then old(open)[s].(openCnt := old(open)[s].openCnt + 1)
                                             else OpenInode(1, false, 0, cat.inodes[s].data)]
      ensures !ok ==> open == old(open)
    {
      if s in open {
        Reopen(s);
        return true;
      }
      if !memory {
        return false;
      }
      OpenNew(s);
      ok := true;
    }

    /** inode_open() of an inode that is not open yet. */
    method OpenNew(s: nat)
      requires Valid() && s in cat.inodes && s !in open
      modifies this`open, store.cache
      ensures Valid() && open == old(open)[s := OpenInode(1, false, 0, cat.inodes[s].data)]
    {
      InodeOnDisk(store.state, cat, s);
      var sector := store.ReadSector(s);
      open := open[s := OpenInode(1, false, 0, ReadInode(sector))];
    }

    /** inode_reopen() */
    method Reopen(s: nat)
      requires Valid() && s in open
      modifies this`open
      ensures Valid() && open == old(open)[s := old(open)[s].(openCnt := old(open)[s].openCnt + 1)]
    {
      open := open[s := open[s].(openCnt := open[s].openCnt + 1)];
    }

    /** inode_remove(), of any inode but the free map's and the root directory's. */
    method Remove(s: nat)
      requires Valid() && s in open && 2 <= s
      modifies this`open
      ensures Valid() && open == old(open)[s := old(open)[s].(removed := true)]
    {
      open := open[s := open[s].(removed := true)];
    }

    /** inode_deny_write(), at most once for each opener. */
    method DenyWrite(s: nat)
      requires Valid() && s in open && open[s].denyWriteCnt < open[s].openCnt
      modifies this`open
      ensures Valid() && open == old(open)[s := old(open)[s].(denyWriteCnt := old(open)[s].denyWriteCnt + 1)]
    {
      open := open[s := open[s].(denyWriteCnt := open[s].denyWriteCnt + 1)];
    }

    /** inode_allow_write() */
    method AllowWrite(s: nat)
      requires Valid() && s in open && open[s].denyWriteCnt > 0
      modifies this`open
      ensures Valid() && open == old(open)[s := old(open)[s].(denyWriteCnt := old(open)[s].denyWriteCnt - 1)]
    {
      open := open[s := open[s].(denyWriteCnt := open[s].denyWriteCnt - 1)];
    }

    /** byte_to_sector(): -1 past the end of the file. */
    method ByteToSector(s: nat, pos: nat) returns (x: int)
      requires Valid() && s in open
      modifies store.cache
      ensures Valid()
      ensures s in cat.files && x == if pos < |cat.files[s]| then cat.inodes[s].ps[pos / BLOCK_SECTOR_SIZE] else -1
    {
      InFile(store.state, cat, s, pos);
      if pos < open[s].data.length {
        x := store.GetIndexSector(open[s].data, pos / BLOCK_SECTOR_SIZE, cat.inodes[s].ps, cat.inodes[s].own);
      } else {
        x := -1;
      }
    }

    /** One iteration of inode_read_at(). */
    method ReadChunk(s: nat, size: nat, offset: nat) returns (data: seq<byte>)
      requires Valid() && s in open && s in cat.files && size > 0
      modifies store.cache
      ensures Valid() && data == Clip(cat.files[s], offset, ChunkSize(|cat.files[s]|, size, offset))
    {
      FileLength(store.state, cat, s, offset);
      var x := ByteToSector(s, offset);
      var chunkSize := ChunkSize(open[s].data.length, size, offset);
      if chunkSize == 0 {
        return [];
      }
      ChunkRead(store.state, cat, s, offset, chunkSize);
      data := store.ReadBytes(x, offset % BLOCK_SECTOR_SIZE, chunkSize);
    }

    /** inode_read_at(): the stored bytes, clipped at the end of the file. */
    method ReadAt(s: nat, size: nat, offset: nat) returns (buffer: seq<byte>)
      requires Valid() && s in open && s in cat.files
      modifies store.cache
      ensures Valid() && buffer == Clip(cat.files[s], offset, size)
      ensures IsRead(buffer, cat.files[s], offset, size)
    {
      buffer := [];
      var left, pos := size, offset;
      while left > 0
        invariant Valid() && pos == offset + |buffer| && left == size - |buffer| >= 0
        invariant buffer == Clip(cat.files[s], offset, |buffer|)
      {
        var data := ReadMore(s, left, pos, buffer, offset);
        if data == [] {
          break;
        }
        buffer, left, pos := buffer + data, left - |data|, pos + |data|;
      }
      ReadBytes(cat.files[s], offset, size);
    }

    /** The same, in the middle of a read that began at offset and has given buffer. */
    method ReadMore(s: nat, left: nat, pos: nat, ghost buffer: seq<byte>, ghost offset: nat) returns (data: seq<byte>)
      requires Valid() && s in open && s in cat.files && left > 0 && pos == offset + |buffer|
      requires buffer == Clip(cat.files[s], offset, |buffer|)
      modifies store.cache
      ensures Valid() && |data| <= left && buffer + data == Clip(cat.files[s], offset, |buffer + data|)
      ensures data == [] ==> buffer == Clip(cat.files[s], offset, |buffer| + left)
    {
      data := ReadChunk(s, left, pos);
      ClipMore(cat.files[s], offset, buffer, left, data);
    }

    /** Overwrites a part of one data sector x of the file. */
    method Patch(s: nat, x: nat, pos: nat, chunk: seq<byte>)
      requires store.Valid() && FsOk(store.state, cat) && s in cat.inodes && s in cat.files && chunk != []
      requires pos + |chunk| <= |cat.files[s]| && pos % BLOCK_SECTOR_SIZE + |chunk| <= BLOCK_SECTOR_SIZE
      requires var i := pos / BLOCK_SECTOR_SIZE; i < |cat.inodes[s].ps| && x == cat.inodes[s].ps[i]
      modifies this`cat, store, store.cache
      ensures store.Valid() && FsOk(store.state, cat) && store.state.used == old(store.state.used)
      ensures cat.inodes == old(cat.inodes) && cat.spare == old(cat.spare)
      ensures PartWritten(old(cat.files), cat.files, s, pos, chunk)
    {
      ghost var bytes := Overwrite(cat.files[s], pos, chunk);
      ChunkOk(store.state, cat, s, cat.inodes[s], cat.files[s], pos, chunk);
      SameInode(store.state, cat, s, bytes);
      cat := Update(cat, s, cat.inodes[s], bytes);
      store.WriteBytes(x, pos % BLOCK_SECTOR_SIZE, chunk);
    }

    /** One iteration of inode_write_at(). */
    method WriteChunk(s: nat, source: seq<byte>, pos: nat) returns (n: nat)
      requires Valid() && s in open && s in cat.files && source != [] && pos + |source| <= |cat.files[s]|
      modifies this`cat, store, store.cache
      ensures Valid() && 0 < n <= |source| && PartWritten(old(cat.files), cat.files, s, pos, source[..n])
      ensures cat.inodes == old(cat.inodes) && cat.spare == old(cat.spare) && store.state.used == old(store.state.used)
    {
      var x := ByteToSector(s, pos);
      n := ChunkSize(open[s].data.length, |source|, pos);
      FileLength(store.state, cat, s, pos);
      Patch(s, x, pos, source[..n]);
    }

    /** The same, in the middle of a write at offset that has written some of buffer;
        files are the files before it. */
    method WriteMore(s: nat, buffer: seq<byte>, offset: nat, written: nat, ghost files: map<nat, seq<byte>>)
      returns (n: nat)
      requires Valid() && s in open && written < |buffer|
      requires s in files && s in cat.files && offset + |buffer| <= |files[s]| == |cat.files[s]|
      requires PartWritten(files, cat.files, s, offset, buffer[..written])
      modifies this`cat, store, store.cache
      ensures Valid() && 0 < n <= |buffer| - written
      ensures PartWritten(files, cat.files, s, offset, buffer[..written + n])
      ensures cat.inodes == old(cat.inodes) && cat.spare == old(cat.spare) && store.state.used == old(store.state.used)
    {
      var rest, pos := buffer[written..], offset + written;
      n := WriteChunk(s, rest, pos);
      MoreWritten(files, old(cat.files), cat.files, s, offset, buffer, written, rest, pos, n);
    }

    /** The loop of inode_write_at(): the file is long enough. */
    method WriteAll(s: nat, buffer: seq<byte>, offset: nat) returns (written: nat)
      requires Valid() && s in open && s in cat.files && offset + |buffer| <= |cat.files[s]|
      modifies this`cat, store, store.cache
      ensures Valid() && written == |buffer| && PartWritten(old(cat.files), cat.files, s, offset, buffer)
      ensures cat.inodes == old(cat.inodes) && cat.spare == old(cat.spare) && store.state.used == old(store.state.used)
    {
      ghost var files := cat.files;
      written := 0;
      assert Overwrite(files[s], offset, buffer[..0]) == files[s];
      while written < |buffer|
        invariant written <= |buffer| && Valid()
        invariant PartWritten(files, cat.files, s, offset, buffer[..written])
        invariant cat.inodes == old(cat.inodes) && cat.spare == old(cat.spare)
        invariant store.state.used == old(store.state.used)
      {
        var n := WriteMore(s, buffer, offset, written, files);
        written := written + n;
      }
      assert buffer[..written] == buffer;
    }

    /** Makes o the table of open inodes; c is the catalog of the disk as it is. */
    method Commit(o: map<nat, OpenInode>, ghost c: Catalog)
      requires store.Valid() && FsOk(store.state, c) && AllOpenOk(o, c.inodes)
      modifies this
      ensures Valid() && open == o && cat == c
    {
      open, cat := o, c;
    }

    /** The extension of the file in inode_write_at(), which ignores the result of
        inode_allocate(): there is a catalog of the disk that agrees with the open inodes
        afterwards if and only if the file could grow. */
    method ExtendTo(s: nat, length: nat) returns (ghost ok: bool)
      requires Valid() && s in open && s in cat.files && |cat.files[s]| < length < 0x8000_0000
      modifies this, store, store.cache, store.freeMap.bits
      ensures ok <==> CanGrow(BytesToSectors(|old(cat.files)[s]|), length, old(store.state.used))
      ensures ok <==> exists c :: Consistent(store.state, open, c)
      ensures ok ==> Valid()
      ensures OnlyData(old(open), open, s) && open[s].data.length == length
      ensures ok ==> GrownTo(old(cat.files), cat.files, s, length) && cat.spare == old(cat.spare)
      ensures ok ==> Taken(|old(cat.files)[s]|, length, old(store.state.used), store.state.used)
    {
      FileGrowable(store.state, cat, s);
      ghost var file := cat.files[s];
      ghost var bytes := file + Zeros(length - |file|);
      ghost var st := store.state;
      var grown, d; ghost var m, c;
      grown, d, m, c := GrowInode(s, open[s].data, length, cat.inodes[s].ps, |file|, bytes);
      ok := grown;
      if grown {
        OpenGrown(open, cat.inodes, s, d, m);
        GrownFile(cat, c, s, m, bytes, length);
        TakenOf(|file|, length, st.used, store.state.used);
        Commit(open[s := open[s].(data := d)], c);
      } else {
        GrowthBroken(st, store.state, cat, c, s, d, length);
        SetLength(s, d.(length := length));
      }
    }

    /** The statements of inode_write_at() after a failed inode_allocate(). */
    method SetLength(s: nat, d: InodeDisk)
      requires store.Valid() && s in open && s < |store.state.plain| && |d.directBlocks| == DIRECT_COUNT
      requires Broken(Saved(store.state, s, d).plain, d, BytesToSectors(d.length))
      modifies this, store, store.cache
      ensures store.Valid() && store.state == Saved(old(store.state), s, d) && cat == old(cat)
      ensures open == old(open)[s := old(open)[s].(data := d)]
      ensures forall c :: !Consistent(store.state, open, c)
    {
      open := open[s := open[s].(data := d)];
      store.WriteSector(s, InodeSector(d));
      forall c ensures !Consistent(store.state, open, c) {
        BrokenInconsistent(store.state, open, c, s);
      }
    }

    /** The same, of a file that can grow. */
    method ExtendFully(s: nat, length: nat)
      requires Valid() && s in open && s in cat.files && |cat.files[s]| < length < 0x8000_0000
      requires CanGrow(BytesToSectors(|cat.files[s]|), length, store.state.used)
      modifies this, store, store.cache, store.freeMap.bits
      ensures Valid() && OnlyData(old(open), open, s)
      ensures GrownTo(old(cat.files), cat.files, s, length) && cat.spare == old(cat.spare)
    {
      ghost var ok := ExtendTo(s, length);
    }

    /** inode_write_at() past the end of the file. */
    method WriteLonger(s: nat, source: seq<byte>, offset: nat) returns (written: nat)
      requires Valid() && s in open && s in cat.files && |cat.files[s]| < offset + |source| < 0x8000_0000
      requires CanGrow(BytesToSectors(|cat.files[s]|), offset + |source|, store.state.used)
      modifies this, store, store.cache, store.freeMap.bits
      ensures Valid() && cat.spare == old(cat.spare) && written == |source|
      ensures OnlyData(old(open), open, s)
      ensures cat.files == old(cat.files)[s := Written(old(cat.files)[s], offset, source)]
    {
      ghost var files := cat.files;
      ExtendFully(s, offset + |source|);
      written := WriteGrown(s, source, offset, files);
    }

    /** inode_write_at() once the file is long enough for source. */
    method WriteGrown(s: nat, source: seq<byte>, offset: nat, ghost files: map<nat, seq<byte>>) returns (written: nat)
      requires Valid() && s in open && GrownTo(files, cat.files, s, offset + |source|)
      requires |files[s]| < offset + |source|
      modifies this`cat, store, store.cache
      ensures Valid() && cat.spare == old(cat.spare) && written == |source|
      ensures cat.files == files[s := Written(files[s], offset, source)]
    {
      ghost var longer := cat.files;
      GrownLength(files, longer, s, offset + |source|);
      written := WriteAll(s, source, offset);
      ThenWritten(files, longer, cat.files, s, offset, source);
    }

    /** inode_write_at(): nothing while writes are denied; otherwise source replaces
        the bytes from offset on, and a file that is too short grows by zeros first. */
    method WriteAt(s: nat, source: seq<byte>, offset: nat) returns (written: nat)
      requires Valid() && s in open && s in cat.files && offset + |source| < 0x8000_0000
      requires open[s].denyWriteCnt == 0 && offset + |source| > |cat.files[s]| ==>
        CanGrow(BytesToSectors(|cat.files[s]|), offset + |source|, store.state.used)
      modifies this, store, store.cache, store.freeMap.bits
      ensures Valid() && cat.spare == old(cat.spare)
      ensures OnlyData(old(open), open, s)
      ensures old(open)[s].denyWriteCnt != 0 ==> written == 0 && cat == old(cat) && open == old(open)
      ensures old(open)[s].denyWriteCnt == 0 ==>
        written == |source| && cat.files == old(cat.files)[s := Written(old(cat.files)[s], offset, source)]
    {
      if open[s].denyWriteCnt != 0 {
        return 0;
      }
      FileLength(store.state, cat, s, 0);
      if offset + |source| > open[s].data.length {
        written := WriteLonger(s, source, offset);
      } else {
        written := WriteAll(s, source, offset);
        SameOpen(open, s);
      }
    }

    /** inode_close(): the last close of a removed inode releases exactly its sector
        and the sectors it owns; otherwise every file stays.  An opener that denied
        writes allows them again before it closes. */
    method Close(s: nat)
      requires Valid() && s in open && open[s].denyWriteCnt < open[s].openCnt
      modifies this, store, store.cache, store.freeMap.bits
      ensures Valid() && s in old(cat.inodes)
      ensures open == if old(open)[s].openCnt == 1 then old(open) - {s}
                      else old(open)[s := old(open)[s].(openCnt := old(open)[s].openCnt - 1)]
      ensures !(old(open)[s].openCnt == 1 && old(open)[s].removed) ==>
        cat == old(cat) && store.state == old(store.state)
      ensures old(open)[s].openCnt == 1 && old(open)[s].removed ==>
        && cat == Without(old(cat), s) && Freed(old(store.state), store.state, old(cat.inodes)[s].own + {s})
        && FreeCnt(store.state.used) == FreeCnt(old(store.state.used)) + |old(cat.inodes)[s].own| + 1
    {
      if open[s].openCnt > 1 {
        open := open[s := open[s].(openCnt := open[s].openCnt - 1)];
      } else if !open[s].removed {
        open := open - {s};
      } else {
        LastClose(s);
      }
    }

    method LastClose(s: nat)
      requires Valid() && s in open && open[s].removed
      modifies this, store, store.cache, store.freeMap.bits
      ensures Valid() && s in old(cat.inodes) && open == old(open) - {s} && cat == Without(old(cat), s)
      ensures Freed(old(store.state), store.state, old(cat.inodes)[s].own + {s})
      ensures FreeCnt(store.state.used) == FreeCnt(old(store.state.used)) + |old(cat.inodes)[s].own| + 1
    {
      InFile(store.state, cat, s, 0);
      ghost var st := store.state;
      store.FreeInode(s, open[s].data, cat.inodes[s].ps, cat.inodes[s].own);
      FreeOk(st, store.state, cat, s);
      Commit(open - {s}, Without(cat, s));
    }

    /** inode_allocate() and writing back the inode, for a new file or a longer one.
        c is the catalog after it. */
    method GrowInode(s: nat, d0: InodeDisk, length: nat, ghost ps: seq<nat>, ghost length0: nat, ghost bytes: seq<byte>)
        returns (ok: bool, d: InodeDisk, ghost m: Meta, ghost c: Catalog)
      requires store.Valid() && FsOk(store.state, cat) && Growable(store.state, cat, s, d0, ps, length0)
      requires length0 <= length < 0x8000_0000
      requires bytes == Content(store.state.plain, ps, length0) + Zeros(length - length0)
      modifies store, store.cache, store.freeMap.bits
      ensures store.Valid() && FsOk(store.state, c)
      ensures ok <==> CanGrow(|ps|, length, old(store.state.used))
      ensures ok ==>
        GrownCatalog(cat, c, s, m, bytes) && m.data == d
      ensures ok ==> d.length == length && d.directory == d0.directory && d.magic == d0.magic
      ensures ok ==> FreeCnt(store.state.used) + Needed(|ps|, BytesToSectors(length)) == FreeCnt(old(store.state.used))
      ensures !ok ==> cat.spare <= c.spare && c == cat.(spare := c.spare)
      ensures !ok ==> LeftBroken(old(store.state), store.state, d0, d, BytesToSectors(length))
    {
      ghost var st, own0 := store.state, OwnedIn(cat.inodes, s);
      SelfOwned(st, cat, s);
      ghost var qs, own;
      ok, d, qs, own := store.Extend(s, d0, length, ps, own0);
      m := Meta(d, qs, own);
      if ok {
        c := Update(cat, s, m, bytes);
        Regrown(st, store.state, cat, s, d0, ps, d, qs, own, length0, length, bytes);
      } else {
        SpareOk(st, store.state, cat, own - own0);
        c := cat.(spare := cat.spare + (own - own0));
      }
    }
  }

  lemma Regrown(st: Store, u: Store, cat: Catalog, s: nat, d0: InodeDisk, ps: seq<nat>,
                d: InodeDisk, qs: seq<nat>, own: set<nat>, length0: nat, length: nat, bytes: seq<byte>)
    requires FsOk(st, cat) && Growable(st, cat, s, d0, ps, length0) && s !in own
    requires Extended(st, u, s, ps, OwnedIn(cat.inodes, s), d, qs, own)
    requires length0 <= length == d.length
    requires |qs| == (if |ps| < BytesToSectors(length) then BytesToSectors(length) else |ps|)
    requires bytes == Content(st.plain, ps, length0) + Zeros(length - length0)
    ensures FsOk(u, Update(cat, s, Meta(d, qs, own), bytes))
    ensures GrownCatalog(cat, Update(cat, s, Meta(d, qs, own), bytes), s, Meta(d, qs, own), bytes)
  {
    LongerNeedsMore(length0, length);
    GrowOk(st, u, cat, s, d0, ps, Meta(d, qs, own), length0, bytes);
  }

  ghost predicate GrownCatalog(c: Catalog, c': Catalog, s: nat, m: Meta, bytes: seq<byte>) {
    c'.inodes == c.inodes[s := m] && c'.spare == c.spare - {s} && c'.files == c.files[s := bytes]
  }

  lemma LongerNeedsMore(length0: nat, length: nat)
    requires length0 <= length
    ensures BytesToSectors(length0) <= BytesToSectors(length)
  {
  }

  /** The file in sector s grew by zeros to length bytes; no other file changed. */
  ghost predicate GrownTo(files: map<nat, seq<byte>>, files': map<nat, seq<byte>>, s: nat, length: nat) {
    && s in files && |files[s]| <= length
    && files' == files[s := files[s] + Zeros(length - |files[s]|)]
  }

  lemma GrownLength(files: map<nat, seq<byte>>, files': map<nat, seq<byte>>, s: nat, length: nat)
    requires GrownTo(files, files', s, length)
    ensures s in files' && |files'[s]| == length
  {
  }

  /** The file in sector s was overwritten at offset; no other file changed. */
  ghost predicate PartWritten(files: map<nat, seq<byte>>, files': map<nat, seq<byte>>, s: nat, offset: nat,
                              source: seq<byte>) {
    && s in files && offset + |source| <= |files[s]|
    && files' == files[s := Overwrite(files[s], offset, source)]
  }

  lemma MoreWritten(files: map<nat, seq<byte>>, f1: map<nat, seq<byte>>, f2: map<nat, seq<byte>>,
                    s: nat, offset: nat, b: seq<byte>, k: nat, rest: seq<byte>, pos: nat, n: nat)
    requires s in files && offset + |b| <= |files[s]| && k + n <= |b| && rest == b[k..] && pos == offset + k
    requires PartWritten(files, f1, s, offset, b[..k]) && PartWritten(f1, f2, s, pos, rest[..n])
    ensures PartWritten(files, f2, s, offset, b[..k + n])
  {
    OverwriteTwice(files[s], offset, b, k, n);
  }

  /** Of the open inodes only the copy of s changed. */
  ghost predicate OnlyData(open: map<nat, OpenInode>, open': map<nat, OpenInode>, s: nat) {
    s in open && s in open' && open' == open[s := open[s].(data := open'[s].data)]
  }

  lemma SameOpen(open: map<nat, OpenInode>, s: nat)
    requires s in open
    ensures OnlyData(open, open, s)
  {
  }

  lemma ThenWritten(files: map<nat, seq<byte>>, longer: map<nat, seq<byte>>, files': map<nat, seq<byte>>,
                    s: nat, offset: nat, source: seq<byte>)
    requires GrownTo(files, longer, s, offset + |source|) && |files[s]| < offset + |source|
    requires PartWritten(longer, files', s, offset, source)
    ensures files' == files[s := Written(files[s], offset, source)]
  {
  }

  lemma GrownFile(c: Catalog, c': Catalog, s: nat, m: Meta, bytes: seq<byte>, length: nat)
    requires GrownCatalog(c, c', s, m, bytes) && s in c.files && |c.files[s]| <= length && s !in c.spare
    requires bytes == c.files[s] + Zeros(length - |c.files[s]|)
    ensures GrownTo(c.files, c'.files, s, length) && c'.spare == c.spare
  {
  }

  lemma OpenGrown(open: map<nat, OpenInode>, inodes: map<nat, Meta>, s: nat, d: InodeDisk, m: Meta)
    requires AllOpenOk(open, inodes) && s in open && m.data == d
    ensures AllOpenOk(open[s := open[s].(data := d)], inodes[s := m])
  {
  }

  lemma OpenKept(open: map<nat, OpenInode>, inodes: map<nat, Meta>, s: nat, m: Meta)
    requires AllOpenOk(open, inodes) && s !in inodes
    ensures AllOpenOk(open, inodes[s := m])
  {
  }
}
