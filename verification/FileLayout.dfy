/** The on-disk form of a file (src/filesys/inode.c): the inode sector, the index
    sector of its indirect blocks, and the bytes they lead to. */
module FileLayout {
  import opened Blocks
  import opened FiniteSets
  import opened Words

  const DIRECT_COUNT: nat := 123
  const INDIRECT_COUNT: nat := 128
  const MAX_SECTORS: nat := 251
  const INODE_MAGIC: nat := 0x494e4f44

  function ZeroSector(): (s: Sector)
    ensures forall i :: 0 <= i < |s| ==> s[i] == 0
  {
    seq(BLOCK_SECTOR_SIZE, _ => 0)
  }

  /** bytes_to_sectors() */
  function BytesToSectors(size: nat): (n: nat) {
    (size + BLOCK_SECTOR_SIZE - 1) / BLOCK_SECTOR_SIZE
  }

  /** n sectors are the fewest that hold size bytes. */
  predicate Fewest(n: nat, size: nat) {
    size <= n * 512 < size + 512
  }

  /** A file takes the fewest sectors that hold it, and no other number is the fewest. */
  lemma SectorCount(size: nat, n: nat)
    ensures Fewest(n, size) <==> n == BytesToSectors(size)
  {
  }

  // ---------------------------------------------------------------------
  // A sector as 128 little-endian words
  // ---------------------------------------------------------------------

  function WordOf(b0: byte, b1: byte, b2: byte, b3: byte): (w: nat)
    ensures w < WORD
  {
    b0 as int + 0x100 * (b1 as int) + 0x1_0000 * (b2 as int) + 0x100_0000 * (b3 as int)
  }

  function Bytes4(w: nat): (bs: seq<byte>)
    ensures |bs| == 4
  {
    var w1 := w / 0x100;
    var w2 := w1 / 0x100;
    var w3 := w2 / 0x100;
    [(w % 0x100) as byte, (w1 % 0x100) as byte, (w2 % 0x100) as byte, (w3 % 0x100) as byte]
  }

  lemma WordOfBytes(w: nat)
    requires w < WORD
    ensures var b := Bytes4(w); WordOf(b[0], b[1], b[2], b[3]) == w
  {
    var w1 := w / 0x100;
    var w2 := w1 / 0x100;
    var w3 := w2 / 0x100;
    Assemble(w, w1, w2, w3);
  }

  lemma Assemble(w: nat, w1: nat, w2: nat, w3: nat)
    requires w < WORD && w1 == w / 0x100 && w2 == w1 / 0x100 && w3 == w2 / 0x100
    ensures w3 < 0x100 && w == w % 0x100 + 0x100 * (w1 % 0x100) + 0x1_0000 * (w2 % 0x100) + 0x100_0000 * w3
  {
    assert w == w % 0x100 + 0x100 * w1;
    assert w1 == w1 % 0x100 + 0x100 * w2;
    assert w2 == w2 % 0x100 + 0x100 * w3;
  }

  function Decode(s: Sector): (ws: seq<nat>)
    ensures |ws| == INDIRECT_COUNT
    ensures forall i :: 0 <= i < INDIRECT_COUNT ==> ws[i] < WORD
  {
    seq(INDIRECT_COUNT,
        i requires 0 <= i < INDIRECT_COUNT => WordOf(s[4 * i], s[4 * i + 1], s[4 * i + 2], s[4 * i + 3]))
  }

  function Encode(ws: seq<nat>): (s: Sector)
    requires |ws| == INDIRECT_COUNT
  {
    seq(BLOCK_SECTOR_SIZE, k requires 0 <= k < BLOCK_SECTOR_SIZE => Bytes4(ws[k / 4])[k % 4])
  }

  /** Reading back an index sector gives the pointers written to it. */
  lemma DecodeEncode(ws: seq<nat>)
    requires |ws| == INDIRECT_COUNT && forall i :: 0 <= i < |ws| ==> ws[i] < WORD
    ensures Decode(Encode(ws)) == ws
  {
    var s := Encode(ws);
    forall i | 0 <= i < |ws| ensures Decode(s)[i] == ws[i] {
      EncodeByte(ws, i, 0);
      EncodeByte(ws, i, 1);
      EncodeByte(ws, i, 2);
      EncodeByte(ws, i, 3);
      WordOfBytes(ws[i]);
    }
  }

  lemma EncodeByte(ws: seq<nat>, i: nat, j: nat)
    requires |ws| == INDIRECT_COUNT && i < |ws| && j < 4
    ensures Encode(ws)[4 * i + j] == Bytes4(ws[i])[j]
  {
    assert (4 * i + j) / 4 == i && (4 * i + j) % 4 == j;
  }

  lemma DecodeZero()
    ensures Decode(ZeroSector()) == seq(INDIRECT_COUNT, _ => 0)
  {
  }

  // ---------------------------------------------------------------------
  // The inode sector
  // ---------------------------------------------------------------------

  /** struct inode_disk */
  datatype InodeDisk = InodeDisk(length: nat, magic: nat, directory: bool,
                                 directBlocks: seq<nat>, indirectBlock: nat, doubleIndirectBlock: nat)

  ghost predicate IsInodeDisk(d: InodeDisk) {
    && |d.directBlocks| == DIRECT_COUNT
    && (forall i :: 0 <= i < DIRECT_COUNT ==> d.directBlocks[i] < WORD)
    && d.length < WORD && d.magic < WORD && d.indirectBlock < WORD && d.doubleIndirectBlock < WORD
  }

  /** The structure fills a sector exactly. */
  function InodeWords(d: InodeDisk): (ws: seq<nat>)
    requires |d.directBlocks| == DIRECT_COUNT
    ensures |ws| == INDIRECT_COUNT
  {
    [d.length, d.magic, if d.directory then 1 else 0] + d.directBlocks + [d.indirectBlock, d.doubleIndirectBlock]
  }

  function InodeSector(d: InodeDisk): (s: Sector)
    requires |d.directBlocks| == DIRECT_COUNT
  {
    Encode(InodeWords(d))
  }

  function ReadInode(s: Sector): (d: InodeDisk) {
    var ws := Decode(s);
    InodeDisk(ws[0], ws[1], ws[2] != 0, ws[3..126], ws[126], ws[127])
  }

  /** Reading back an inode sector gives the inode written to it. */
  lemma ReadBack(d: InodeDisk)
    requires IsInodeDisk(d)
    ensures ReadInode(InodeSector(d)) == d
  {
    DecodeEncode(InodeWords(d));
    assert InodeWords(d)[3..126] == d.directBlocks;
  }

  // ---------------------------------------------------------------------
  // Data sectors
  // ---------------------------------------------------------------------

  /** The inode d leads, through the index sector on the disk p if it has one, to
      exactly the data sectors ps; pointers past them are 0. */
  ghost predicate Layout(d: InodeDisk, p: seq<Sector>, ps: seq<nat>) {
    && |ps| <= MAX_SECTORS
    && IsInodeDisk(d)
    && (forall i :: 0 <= i < DIRECT_COUNT ==> d.directBlocks[i] == if i < |ps| then ps[i] else 0)
    && d.doubleIndirectBlock == 0
    && (d.indirectBlock == 0 <==> |ps| <= DIRECT_COUNT)
    && (|ps| > DIRECT_COUNT ==> d.indirectBlock < |p| && IndexHolds(Decode(p[d.indirectBlock]), ps))
  }

  /** ws are the pointers of ps that do not fit in the inode, then zeros. */
  ghost predicate IndexHolds(ws: seq<nat>, ps: seq<nat>) {
    && |ws| == INDIRECT_COUNT
    && forall j :: 0 <= j < INDIRECT_COUNT ==> ws[j] == if DIRECT_COUNT + j < |ps| then ps[DIRECT_COUNT + j] else 0
  }

  /** The sectors that belong to the inode, besides its own. */
  ghost function Owned(d: InodeDisk, ps: seq<nat>): (xs: seq<nat>) {
    ps + if d.indirectBlock == 0 then [] else [d.indirectBlock]
  }

  /** Sectors 0 and 1 are never data: 0 marks a missing block. */
  ghost predicate InData(xs: seq<nat>, n: nat) {
    forall i :: 0 <= i < |xs| ==> 2 <= xs[i] < n
  }

  /** Byte k of the data sectors. */
  ghost function ByteAt(p: seq<Sector>, ps: seq<nat>, k: nat): (b: byte)
    requires InData(ps, |p|) && k / BLOCK_SECTOR_SIZE < |ps|
  {
    p[ps[k / BLOCK_SECTOR_SIZE]][k % BLOCK_SECTOR_SIZE]
  }

  /** The contents of the file. */
  ghost function Content(p: seq<Sector>, ps: seq<nat>, length: nat): (c: seq<byte>)
    requires InData(ps, |p|) && |ps| == BytesToSectors(length)
    ensures |c| == length
    ensures forall k :: 0 <= k < length ==> c[k] == ByteAt(p, ps, k)
  {
    seq(length, k requires 0 <= k < length => ByteAt(p, ps, k))
  }

  /** The bytes of the last sector past the end of the file are zero. */
  ghost predicate TailZero(p: seq<Sector>, ps: seq<nat>, length: nat)
    requires InData(ps, |p|)
  {
    forall k :: length <= k < |ps| * BLOCK_SECTOR_SIZE ==> ByteAt(p, ps, k) == 0
  }

  /** The two disks agree on the sectors xs. */
  ghost predicate Agree(p: seq<Sector>, q: seq<Sector>, xs: seq<nat>) {
    |p| == |q| && forall i :: 0 <= i < |xs| && xs[i] < |p| ==> q[xs[i]] == p[xs[i]]
  }

  /** A file does not change when its sectors own do not. */
  lemma ContentFrame(d: InodeDisk, p: seq<Sector>, q: seq<Sector>, ps: seq<nat>, own: set<nat>)
    requires Layout(d, p, ps) && InData(ps, |p|) && |ps| == BytesToSectors(d.length) && |q| == |p|
    requires (forall i :: 0 <= i < |ps| ==> ps[i] in own) && (d.indirectBlock != 0 ==> d.indirectBlock in own)
    requires forall x :: x in own ==> x < |p| && q[x] == p[x]
    ensures Layout(d, q, ps) && Content(q, ps, d.length) == Content(p, ps, d.length)
    ensures TailZero(p, ps, d.length) ==> TailZero(q, ps, d.length)
  {
    assert forall k :: 0 <= k < |ps| * BLOCK_SECTOR_SIZE ==> ByteAt(q, ps, k) == ByteAt(p, ps, k);
  }

  function Zeros(n: nat): (z: seq<byte>) {
    seq(n, _ => 0)
  }

  /** Growing a file: new data sectors that are zero make the file longer by zeros. */
  lemma ContentGrow(p: seq<Sector>, q: seq<Sector>, ps: seq<nat>, qs: seq<nat>, length: nat, newLength: nat)
    requires InData(ps, |p|) && |ps| == BytesToSectors(length) && TailZero(p, ps, length)
    requires InData(qs, |q|) && |qs| == BytesToSectors(newLength) && length <= newLength
    requires ps <= qs && Agree(p, q, ps)
    requires forall i :: |ps| <= i < |qs| ==> q[qs[i]] == ZeroSector()
    ensures Content(q, qs, newLength) == Content(p, ps, length) + Zeros(newLength - length)
    ensures TailZero(q, qs, newLength)
  {
    forall k | 0 <= k < |qs| * BLOCK_SECTOR_SIZE
      ensures ByteAt(q, qs, k) == if k < |ps| * BLOCK_SECTOR_SIZE then ByteAt(p, ps, k) else 0
    {
      var i := k / BLOCK_SECTOR_SIZE;
      if i < |ps| {
        assert qs[i] == ps[i];
      }
    }
  }

  /** Writing part of one data sector overwrites that part of the file. */
  lemma ContentWrite(p: seq<Sector>, ps: seq<nat>, length: nat, pos: nat, chunk: seq<byte>)
    requires InData(ps, |p|) && |ps| == BytesToSectors(length) && Distinct(ps)
    requires pos + |chunk| <= length && chunk != [] && pos % BLOCK_SECTOR_SIZE + |chunk| <= BLOCK_SECTOR_SIZE
    ensures var x, o := ps[pos / BLOCK_SECTOR_SIZE], pos % BLOCK_SECTOR_SIZE;
      var q := p[x := Overwrite(p[x], o, chunk)];
      && Content(q, ps, length) == Overwrite(Content(p, ps, length), pos, chunk)
      && (TailZero(p, ps, length) ==> TailZero(q, ps, length))
  {
    var x, o := ps[pos / BLOCK_SECTOR_SIZE], pos % BLOCK_SECTOR_SIZE;
    var q := p[x := Overwrite(p[x], o, chunk)];
    forall k | 0 <= k < |ps| * BLOCK_SECTOR_SIZE
      ensures ByteAt(q, ps, k) == if pos <= k < pos + |chunk| then chunk[k - pos] else ByteAt(p, ps, k)
    {
      if k / BLOCK_SECTOR_SIZE == pos / BLOCK_SECTOR_SIZE {
        assert k - pos == k % BLOCK_SECTOR_SIZE - o;
      } else {
        assert ps[k / BLOCK_SECTOR_SIZE] != x;
      }
    }
  }

  /** Reading part of one data sector gives that part of the file. */
  lemma ContentRead(p: seq<Sector>, ps: seq<nat>, length: nat, pos: nat, size: nat)
    requires InData(ps, |p|) && |ps| == BytesToSectors(length)
    requires pos + size <= length && size > 0 && pos % BLOCK_SECTOR_SIZE + size <= BLOCK_SECTOR_SIZE
    ensures var x, o := ps[pos / BLOCK_SECTOR_SIZE], pos % BLOCK_SECTOR_SIZE;
      p[x][o..o + size] == Content(p, ps, length)[pos..pos + size]
  {
    var x, o, c := ps[pos / BLOCK_SECTOR_SIZE], pos % BLOCK_SECTOR_SIZE, Content(p, ps, length);
    var a, b := p[x][o..o + size], c[pos..pos + size];
    forall j | 0 <= j < size ensures a[j] == b[j] {
      assert (pos + j) / BLOCK_SECTOR_SIZE == pos / BLOCK_SECTOR_SIZE;
      assert c[pos + j] == ByteAt(p, ps, pos + j);
    }
  }
}
