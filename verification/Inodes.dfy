/** The inodes on the disk: whose sectors are whose, and what happens to all files
    when one inode changes (src/filesys/inode.c). */
module Inodes {
  import opened Blocks
  import opened FileLayout
  import opened FreeSpace

  /** An inode, the data sectors it leads to, and all sectors it owns besides its own. */
  datatype Meta = Meta(data: InodeDisk, ps: seq<nat>, own: set<nat>)

  /** The inode in sector s, and all its data, is on the disk and in use. */
  ghost predicate Good(st: Store, s: nat, m: Meta) {
    && Held(st, m.data, m.ps, m.own) && s < |st.used| && st.used[s] && s !in m.own
    && st.plain[s] == InodeSector(m.data)
    && |m.ps| == BytesToSectors(m.data.length) && TailZero(st.plain, m.ps, m.data.length)
  }

  /** The bytes of the file. */
  ghost function FileOf(p: seq<Sector>, m: Meta): (c: seq<byte>) {
    if InData(m.ps, |p|) && |m.ps| == BytesToSectors(m.data.length) then Content(p, m.ps, m.data.length) else []
  }

  /** The inodes and who owns which sector.  spare are the sectors in use that belong
      to no inode, and files the bytes of every inode, by its sector number. */
  datatype Catalog = Catalog(inodes: map<nat, Meta>, owner: map<nat, nat>, spare: set<nat>, files: map<nat, seq<byte>>)

  ghost predicate OwnedBy(owner: map<nat, nat>, s: nat, m: Meta) {
    s in owner && owner[s] == s && forall x {:trigger x in m.own} :: x in m.own ==> x in owner && owner[x] == s
  }

  ghost predicate AllGood(st: Store, c: Catalog) {
    forall s {:trigger Good(st, s, c.inodes[s])} {:trigger OwnedBy(c.owner, s, c.inodes[s])} :: s in c.inodes ==>
      Good(st, s, c.inodes[s]) && OwnedBy(c.owner, s, c.inodes[s])
  }

  ghost predicate FilesOk(p: seq<Sector>, c: Catalog) {
    && c.files.Keys == c.inodes.Keys
    && forall s {:trigger c.files[s]} :: s in c.inodes ==> c.files[s] == FileOf(p, c.inodes[s])
  }

  /** Every owned sector is the inode's own, or one of its data or index sectors. */
  ghost predicate OwnersExact(inodes: map<nat, Meta>, owner: map<nat, nat>) {
    forall x {:trigger owner[x]} :: x in owner ==> owner[x] in inodes && (x == owner[x] || x in inodes[owner[x]].own)
  }

  ghost predicate UsedExact(used: seq<bool>, owner: map<nat, nat>, spare: set<nat>) {
    && (forall x :: x in spare ==> x < |used| && x !in owner)
    && (forall x {:trigger used[x]} :: 0 <= x < |used| ==> (used[x] <==> x in spare || x in owner))
  }

  /** Sector conservation: a sector is in use exactly when it is spare or belongs
      to an inode, and then it belongs to one inode only. */
  ghost predicate FsOk(st: Store, c: Catalog) {
    && StoreOk(st) && AllGood(st, c) && FilesOk(st.plain, c)
    && OwnersExact(c.inodes, c.owner) && UsedExact(st.used, c.owner, c.spare)
  }

  /** A file that is left alone stays as it is. */
  lemma KeepFile(st: Store, t: Store, s: nat, m: Meta)
    requires Good(st, s, m) && |t.plain| == |t.used| == |st.plain|
    requires t.plain[s] == st.plain[s] && t.used[s]
    requires forall x :: x in m.own ==> t.plain[x] == st.plain[x] && t.used[x]
    ensures Good(t, s, m) && FileOf(t.plain, m) == FileOf(st.plain, m)
  {
    ContentFrame(m.data, st.plain, t.plain, m.ps, m.own);
  }

  // ---------------------------------------------------------------------
  // Replacing one inode
  // ---------------------------------------------------------------------

  ghost function Assign(owner: map<nat, nat>, xs: set<nat>, s: nat): (r: map<nat, nat>)
    ensures forall x :: x in r <==> x in owner || x in xs
    ensures forall x :: x in r ==> r[x] == if x in xs then s else owner[x]
  {
    owner + map x | x in xs :: s
  }

  /** The sectors that the inode in sector s owns before; a new inode has none. */
  ghost function OwnedIn(inodes: map<nat, Meta>, s: nat): (own: set<nat>) {
    if s in inodes then inodes[s].own else {}
  }

  /** The catalog after the inode in sector s became m and its file bytes. */
  ghost function Update(c: Catalog, s: nat, m: Meta, bytes: seq<byte>): (c': Catalog) {
    Catalog(c.inodes[s := m], Assign(c.owner, m.own + {s}, s), c.spare - {s}, c.files[s := bytes])
  }

  /** From st to t only the inode in sector s changed: it owned own0 and now owns own. */
  ghost predicate Confined(st: Store, t: Store, s: nat, own0: set<nat>, own: set<nat>) {
    && |t.plain| == |t.used| == |st.plain| == |st.used|
    && own0 <= own && (forall x :: x in own && x !in own0 ==> x < |st.used| && !st.used[x])
    && (forall x :: 0 <= x < |st.used| ==> (t.used[x] <==> st.used[x] || x in own))
    && (forall x :: 0 <= x < |st.plain| && x != s && x !in own ==> t.plain[x] == st.plain[x])
  }

  ghost predicate Replacing(st: Store, t: Store, c: Catalog, s: nat, m: Meta) {
    && FsOk(st, c) && (s in c.inodes || s in c.spare)
    && Good(t, s, m) && Confined(st, t, s, OwnedIn(c.inodes, s), m.own)
  }

  lemma SelfOwned(st: Store, c: Catalog, s: nat)
    requires FsOk(st, c) && (s in c.inodes || s in c.spare)
    ensures s in c.owner ==> c.owner[s] == s
    ensures s < |st.used| && st.used[s] && (s in c.inodes ==> OwnedBy(c.owner, s, c.inodes[s]))
  {
    assert s in c.inodes ==> OwnedBy(c.owner, s, c.inodes[s]);
  }

  /** A sector of another inode is not touched. */
  lemma Untouched(st: Store, t: Store, inodes: map<nat, Meta>, owner: map<nat, nat>, s: nat, own: set<nat>, x: nat)
    requires Confined(st, t, s, OwnedIn(inodes, s), own)
    requires (s in owner ==> owner[s] == s) && (s in inodes ==> OwnedBy(owner, s, inodes[s]))
    requires x in owner && owner[x] != s && x < |st.used| && st.used[x]
    ensures x !in own && x != s && t.plain[x] == st.plain[x] && t.used[x]
  {
  }

  /** Other inodes are not touched. */
  lemma OthersKept(st: Store, t: Store, c: Catalog, s: nat, m: Meta, s': nat)
    requires Replacing(st, t, c, s, m) && s' in c.inodes && s' != s
    ensures Good(t, s', c.inodes[s']) && FileOf(t.plain, c.inodes[s']) == FileOf(st.plain, c.inodes[s'])
    ensures OwnedBy(c.owner, s', c.inodes[s'])
    ensures s' !in m.own && forall x :: x in c.inodes[s'].own ==> x !in m.own && x != s
  {
    SelfOwned(st, c, s);
    assert OwnedBy(c.owner, s', c.inodes[s']);
    forall x | x in c.inodes[s'].own || x == s'
      ensures x !in m.own && x != s && t.plain[x] == st.plain[x] && t.used[x]
    {
      Untouched(st, t, c.inodes, c.owner, s, m.own, x);
    }
    KeepFile(st, t, s', c.inodes[s']);
  }

  lemma ReplaceOwners(inodes: map<nat, Meta>, owner: map<nat, nat>, s: nat, m: Meta)
    requires OwnersExact(inodes, owner) && (s in owner ==> owner[s] == s) && OwnedIn(inodes, s) <= m.own
    ensures OwnersExact(inodes[s := m], Assign(owner, m.own + {s}, s))
  {
  }

  lemma ReplaceUsed(u: seq<bool>, v: seq<bool>, owner: map<nat, nat>, spare: set<nat>, s: nat, own0: set<nat>,
                    own: set<nat>)
    requires UsedExact(u, owner, spare) && |v| == |u| && s < |u| && u[s]
    requires forall x :: x in own0 ==> x in owner
    requires forall x :: x in own && x !in own0 ==> x < |u| && !u[x]
    requires forall x :: 0 <= x < |u| ==> (v[x] <==> u[x] || x in own)
    ensures UsedExact(v, Assign(owner, own + {s}, s), spare - {s})
  {
  }

  lemma AssignKeeps(owner: map<nat, nat>, s: nat, own: set<nat>, s': nat, m: Meta)
    requires s' != s ==> OwnedBy(owner, s', m) && s' !in own && forall x :: x in m.own ==> x !in own && x != s
    requires s' == s ==> m.own == own
    ensures OwnedBy(Assign(owner, own + {s}, s), s', m)
  {
  }

  lemma ReplaceOne(st: Store, t: Store, c: Catalog, s: nat, m: Meta, s': nat)
    requires Replacing(st, t, c, s, m) && (s' in c.inodes || s' == s)
    ensures var m' := c.inodes[s := m][s']; Good(t, s', m') && OwnedBy(Assign(c.owner, m.own + {s}, s), s', m')
  {
    if s' != s {
      OthersKept(st, t, c, s, m, s');
    }
    AssignKeeps(c.owner, s, m.own, s', c.inodes[s := m][s']);
  }

  lemma ReplaceGood(st: Store, t: Store, c: Catalog, s: nat, m: Meta)
    requires Replacing(st, t, c, s, m)
    ensures AllGood(t, Update(c, s, m, FileOf(t.plain, m)))
  {
    var c' := Update(c, s, m, FileOf(t.plain, m));
    forall s' | s' in c'.inodes ensures Good(t, s', c'.inodes[s']) && OwnedBy(c'.owner, s', c'.inodes[s']) {
      ReplaceOne(st, t, c, s, m, s');
    }
  }

  lemma ReplaceFiles(st: Store, t: Store, c: Catalog, s: nat, m: Meta)
    requires Replacing(st, t, c, s, m)
    ensures FilesOk(t.plain, Update(c, s, m, FileOf(t.plain, m)))
  {
    forall s' | s' in c.inodes && s' != s ensures FileOf(t.plain, c.inodes[s']) == FileOf(st.plain, c.inodes[s']) {
      OthersKept(st, t, c, s, m, s');
    }
    FilesUpdate(st.plain, t.plain, c, s, m);
  }

  lemma FilesUpdate(p: seq<Sector>, q: seq<Sector>, c: Catalog, s: nat, m: Meta)
    requires FilesOk(p, c)
    requires forall s' :: s' in c.inodes && s' != s ==> FileOf(q, c.inodes[s']) == FileOf(p, c.inodes[s'])
    ensures FilesOk(q, Update(c, s, m, FileOf(q, m)))
  {
  }

  /** Replacing one inode keeps the file system consistent and all other files. */
  lemma ReplaceOk(st: Store, t: Store, c: Catalog, s: nat, m: Meta)
    requires Replacing(st, t, c, s, m)
    ensures FsOk(t, Update(c, s, m, FileOf(t.plain, m)))
  {
    SelfOwned(st, c, s);
    ReplaceOwners(c.inodes, c.owner, s, m);
    ReplaceUsed(st.used, t.used, c.owner, c.spare, s, OwnedIn(c.inodes, s), m.own);
    ReplaceGood(st, t, c, s, m);
    ReplaceFiles(st, t, c, s, m);
  }

  // ---------------------------------------------------------------------
  // The changes that inode.c makes
  // ---------------------------------------------------------------------

  /** The inode in sector s, new or not, is d0 with the data sectors ps and length0 bytes. */
  ghost predicate Growable(st: Store, c: Catalog, s: nat, d0: InodeDisk, ps: seq<nat>, length0: nat) {
    && (s in c.inodes || s in c.spare) && s !in OwnedIn(c.inodes, s) && Held(st, d0, ps, OwnedIn(c.inodes, s))
    && |ps| == BytesToSectors(length0) && TailZero(st.plain, ps, length0)
  }

  /** Every inode can grow from what it is. */
  lemma FileGrowable(st: Store, c: Catalog, s: nat)
    requires FsOk(st, c) && s in c.inodes
    ensures s in c.files && s !in c.spare && Growable(st, c, s, c.inodes[s].data, c.inodes[s].ps, |c.files[s]|)
    ensures c.inodes[s].data.length == |c.files[s]| && |c.inodes[s].ps| == BytesToSectors(|c.files[s]|)
    ensures c.files[s] == Content(st.plain, c.inodes[s].ps, |c.files[s]|)
  {
    SelfOwned(st, c, s);
    assert Good(st, s, c.inodes[s]);
    assert c.files[s] == FileOf(st.plain, c.inodes[s]);
  }

  lemma GrowGood(st: Store, u: Store, s: nat, d0: InodeDisk, ps: seq<nat>, own0: set<nat>, m: Meta, length0: nat)
    requires Held(st, d0, ps, own0) && |ps| == BytesToSectors(length0) && TailZero(st.plain, ps, length0)
    requires Extended(st, u, s, ps, own0, m.data, m.ps, m.own) && s !in m.own && st.used[s]
    requires length0 <= m.data.length && |m.ps| == BytesToSectors(m.data.length)
    ensures Good(u, s, m) && Confined(st, u, s, own0, m.own)
    ensures FileOf(u.plain, m) == Content(st.plain, ps, length0) + Zeros(m.data.length - length0)
  {
    assert forall i :: 0 <= i < |ps| ==> m.ps[i] == ps[i];
    ContentGrow(st.plain, u.plain, ps, m.ps, length0, m.data.length);
  }

  /** No list of sectors makes a broken inode good, whatever else the disk holds. */
  lemma BrokenNotGood(st: Store, s: nat, m: Meta)
    requires Broken(st.plain, m.data, BytesToSectors(m.data.length))
    ensures !Good(st, s, m)
  {
    if Good(st, s, m) {
      BrokenHasNoLayout(st.plain, m.data, BytesToSectors(m.data.length), m.ps);
    }
  }

  /** Writing the inode to its sector s mends nothing. */
  lemma BrokenWritten(st: Store, t: Store, d0: InodeDisk, d: InodeDisk, s: nat, length: nat, own0: set<nat>)
    requires LeftBroken(st, t, d0, d, BytesToSectors(length)) && s < |st.used| && st.used[s] && s !in own0
    requires d0.indirectBlock != 0 ==> d0.indirectBlock in own0
    requires s < |t.plain|
    ensures var d' := d.(length := length); Broken(Saved(t, s, d').plain, d', BytesToSectors(length))
  {
    var d' := d.(length := length);
    if DIRECT_COUNT < BytesToSectors(length) && d.indirectBlock != 0 {
      assert d.indirectBlock != s;
      assert MissingIn(t.plain, d.indirectBlock, BytesToSectors(length) - DIRECT_COUNT) ==>
        MissingIn(Saved(t, s, d').plain, d.indirectBlock, BytesToSectors(length) - DIRECT_COUNT);
    }
  }

  /** Growing one inode, or making it, keeps the file system consistent. */
  lemma GrowOk(st: Store, u: Store, c: Catalog, s: nat, d0: InodeDisk, ps: seq<nat>, m: Meta, length0: nat,
               bytes: seq<byte>)
    requires FsOk(st, c) && Growable(st, c, s, d0, ps, length0) && s !in m.own
    requires Extended(st, u, s, ps, OwnedIn(c.inodes, s), m.data, m.ps, m.own)
    requires length0 <= m.data.length && |m.ps| == BytesToSectors(m.data.length)
    requires bytes == Content(st.plain, ps, length0) + Zeros(m.data.length - length0)
    ensures FsOk(u, Update(c, s, m, bytes))
  {
    SelfOwned(st, c, s);
    GrowGood(st, u, s, d0, ps, OwnedIn(c.inodes, s), m, length0);
    ReplaceOk(st, u, c, s, m);
  }

  /** The store after chunk was written into the file m at position pos. */
  ghost function Patched(st: Store, m: Meta, pos: nat, chunk: seq<byte>): (t: Store)
    requires pos / BLOCK_SECTOR_SIZE < |m.ps| && m.ps[pos / BLOCK_SECTOR_SIZE] < |st.plain|
    requires pos % BLOCK_SECTOR_SIZE + |chunk| <= BLOCK_SECTOR_SIZE
  {
    var x := m.ps[pos / BLOCK_SECTOR_SIZE];
    st.(plain := st.plain[x := Overwrite(st.plain[x], pos % BLOCK_SECTOR_SIZE, chunk)])
  }

  lemma InFile(st: Store, c: Catalog, s: nat, pos: nat)
    requires FsOk(st, c) && s in c.inodes
    ensures s in c.files && |c.files[s]| == c.inodes[s].data.length && c.files[s] == FileOf(st.plain, c.inodes[s])
    ensures Good(st, s, c.inodes[s])
    ensures pos < |c.files[s]| ==>
      var i := pos / BLOCK_SECTOR_SIZE; i < |c.inodes[s].ps| && 2 <= c.inodes[s].ps[i] < |st.plain|
  {
    assert Good(st, s, c.inodes[s]);
  }

  lemma FileLength(st: Store, c: Catalog, s: nat, pos: nat)
    requires FsOk(st, c) && s in c.inodes
    ensures s in c.files && |c.files[s]| == c.inodes[s].data.length
    ensures pos < |c.files[s]| ==> pos / BLOCK_SECTOR_SIZE < |c.inodes[s].ps|
  {
    InFile(st, c, s, pos);
  }

  /** The inode in sector s is on the disk. */
  lemma InodeOnDisk(st: Store, c: Catalog, s: nat)
    requires FsOk(st, c) && s in c.inodes
    ensures s < |st.plain| && ReadInode(st.plain[s]) == c.inodes[s].data
  {
    InFile(st, c, s, 0);
    ReadBack(c.inodes[s].data);
  }

  /** A chunk of a file within one sector is where its sector list says. */
  lemma ChunkRead(st: Store, c: Catalog, s: nat, pos: nat, n: nat)
    requires FsOk(st, c) && s in c.inodes && s in c.files && n > 0 && pos + n <= |c.files[s]|
    requires pos % BLOCK_SECTOR_SIZE + n <= BLOCK_SECTOR_SIZE
    ensures pos / BLOCK_SECTOR_SIZE < |c.inodes[s].ps|
    ensures
      var x, o := c.inodes[s].ps[pos / BLOCK_SECTOR_SIZE], pos % BLOCK_SECTOR_SIZE;
      x < |st.plain| && st.plain[x][o..o + n] == c.files[s][pos..pos + n]
  {
    InFile(st, c, s, pos);
    ContentRead(st.plain, c.inodes[s].ps, |c.files[s]|, pos, n);
  }

  lemma ChunkGood(st: Store, s: nat, m: Meta, pos: nat, chunk: seq<byte>)
    requires Good(st, s, m) && chunk != [] && pos + |chunk| <= m.data.length
    requires pos % BLOCK_SECTOR_SIZE + |chunk| <= BLOCK_SECTOR_SIZE
    ensures pos / BLOCK_SECTOR_SIZE < |m.ps|
    ensures var t := Patched(st, m, pos, chunk);
      && Good(t, s, m) && Confined(st, t, s, m.own, m.own)
      && FileOf(t.plain, m) == Overwrite(FileOf(st.plain, m), pos, chunk)
  {
    ContentWrite(st.plain, m.ps, m.data.length, pos, chunk);
  }

  /** One chunk of inode_write_at() leaves the inode as it is and overwrites a part
      of the file. */
  lemma ChunkOk(st: Store, c: Catalog, s: nat, m: Meta, file: seq<byte>, pos: nat, chunk: seq<byte>)
    requires FsOk(st, c) && s in c.inodes && c.inodes[s] == m && s in c.files && c.files[s] == file
    requires chunk != [] && pos + |chunk| <= |file| && pos % BLOCK_SECTOR_SIZE + |chunk| <= BLOCK_SECTOR_SIZE
    ensures pos / BLOCK_SECTOR_SIZE < |m.ps| && m.ps[pos / BLOCK_SECTOR_SIZE] < |st.plain|
    ensures FsOk(Patched(st, m, pos, chunk), Update(c, s, m, Overwrite(file, pos, chunk)))
  {
    InFile(st, c, s, pos);
    ChunkGood(st, s, m, pos, chunk);
    ReplaceOk(st, Patched(st, m, pos, chunk), c, s, m);
  }

  lemma SameInode(st: Store, c: Catalog, s: nat, bytes: seq<byte>)
    requires FsOk(st, c) && s in c.inodes
    ensures var c' := Update(c, s, c.inodes[s], bytes);
      c'.inodes == c.inodes && c'.spare == c.spare && c'.files == c.files[s := bytes]
  {
    SelfOwned(st, c, s);
  }

  // ---------------------------------------------------------------------
  // Freeing an inode
  // ---------------------------------------------------------------------

  /** The catalog after the inode in sector s and all its sectors were released. */
  ghost function Without(c: Catalog, s: nat): (c': Catalog)
    requires s in c.inodes
  {
    Catalog(c.inodes - {s}, c.owner - (c.inodes[s].own + {s}), c.spare, c.files - {s})
  }

  lemma FreeOne(st: Store, t: Store, c: Catalog, s: nat, s': nat)
    requires FsOk(st, c) && s in c.inodes && Freed(st, t, c.inodes[s].own + {s}) && s' in c.inodes && s' != s
    ensures Good(t, s', c.inodes[s']) && OwnedBy(Without(c, s).owner, s', c.inodes[s'])
  {
    assert OwnedBy(c.owner, s, c.inodes[s]) && OwnedBy(c.owner, s', c.inodes[s']) && Good(st, s', c.inodes[s']);
    KeepFile(st, t, s', c.inodes[s']);
  }

  lemma FreeOwners(inodes: map<nat, Meta>, owner: map<nat, nat>, s: nat)
    requires OwnersExact(inodes, owner) && s in inodes && OwnedBy(owner, s, inodes[s])
    ensures OwnersExact(inodes - {s}, owner - (inodes[s].own + {s}))
  {
  }

  lemma FreeUsed(u: seq<bool>, v: seq<bool>, owner: map<nat, nat>, spare: set<nat>, xs: set<nat>)
    requires UsedExact(u, owner, spare) && |v| == |u| && forall x :: x in xs ==> x in owner
    requires forall x :: 0 <= x < |u| ==> (v[x] <==> u[x] && x !in xs)
    ensures UsedExact(v, owner - xs, spare)
  {
  }

  /** Releasing an inode and its sectors keeps the file system consistent and all
      other files. */
  lemma FreeOk(st: Store, t: Store, c: Catalog, s: nat)
    requires FsOk(st, c) && s in c.inodes && 2 <= s && Freed(st, t, c.inodes[s].own + {s})
    ensures FsOk(t, Without(c, s))
  {
    var c' := Without(c, s);
    assert OwnedBy(c.owner, s, c.inodes[s]) && Good(st, s, c.inodes[s]);
    FreeOwners(c.inodes, c.owner, s);
    FreeUsed(st.used, t.used, c.owner, c.spare, c.inodes[s].own + {s});
    forall s' | s' in c'.inodes ensures Good(t, s', c'.inodes[s']) && OwnedBy(c'.owner, s', c'.inodes[s']) {
      FreeOne(st, t, c, s, s');
    }
  }
}
