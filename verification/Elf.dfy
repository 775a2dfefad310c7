/** Loading a segment of an ELF executable: src/userprog/process.c. */
module Elf {
  import opened Bits
  import opened Blocks
  import opened DistinctLists
  import opened FileLayout
  import opened Options
  import opened Paging
  import opened Words
  import F = FileSystem
  import P = Palloc
  import T = PageTables

  const PF_W: nat := 2

  /** The fields of struct Elf32_Phdr that a loadable segment uses, 32-bit words. */
  datatype Phdr = Phdr(offset: nat, vaddr: nat, filesz: nat, memsz: nat, flags: nat)

  predicate IsPhdr(ph: Phdr) {
    ph.offset < WORD && ph.vaddr < WORD && ph.filesz < WORD && ph.memsz < WORD && ph.flags < WORD
  }

  /** A segment that can be loaded: it lies in user memory above page 0, its offset
      in the file and its address agree modulo the page size, and it is not empty. */
  predicate Loadable(ph: Phdr, fileLength: nat) {
    && ph.offset % PGSIZE == ph.vaddr % PGSIZE && ph.offset <= fileLength
    && 0 < ph.memsz && ph.filesz <= ph.memsz && PGSIZE <= ph.vaddr && ph.vaddr + ph.memsz < PHYS_BASE
  }

  /** The number of pages that the segment touches. */
  function SegmentPageCnt(ph: Phdr): (n: nat) {
    if ph.memsz == 0 then 0 else (ph.vaddr + ph.memsz - 1) / 4096 - ph.vaddr / 4096 + 1
  }

  /** validate_segment(), in 32-bit arithmetic: it accepts exactly the loadable segments. */
  method ValidateSegment(ph: Phdr, fileLength: nat) returns (r: bool)
    requires IsPhdr(ph)
    ensures r <==> Loadable(ph, fileLength)
  {
    var fileOfs := T.Offset(ph.offset);
    var memOfs := T.Offset(ph.vaddr);
    var end := (ph.vaddr + ph.memsz) % WORD;
    EndWraps(ph.vaddr, ph.memsz, end);
    if fileOfs != memOfs {
      return false;
    }
    if ph.offset > fileLength || ph.memsz < ph.filesz || ph.memsz == 0 {
      return false;
    }
    if !IsUser(ph.vaddr) || !IsUser(end) || end < ph.vaddr || ph.vaddr < PGSIZE {
      return false;
    }
    r := true;
  }

  /** The end of the segment wraps around exactly when it comes out below its start. */
  lemma EndWraps(vaddr: nat, memsz: nat, end: nat)
    requires vaddr < WORD && memsz < WORD && end == (vaddr + memsz) % WORD
    ensures end == if end < vaddr then vaddr + memsz - WORD else vaddr + memsz
  {
  }

  // ---------------------------------------------------------------------
  // What the pages of a segment hold
  // ---------------------------------------------------------------------

  /** How many bytes of page i come from the file, when read bytes do in all. */
  function ReadIn(read: nat, i: nat): (n: nat)
    ensures n <= PGSIZE
  {
    if read <= i * PGSIZE then 0 else if read - i * PGSIZE < PGSIZE then read - i * PGSIZE else PGSIZE
  }

  /** The contents of page i: bytes of the file from ofs on, then zeros. */
  ghost function PageData(file: seq<byte>, ofs: nat, read: nat, i: nat): (d: seq<byte>) {
    F.Clip(file, ofs + i * PGSIZE, ReadIn(read, i)) + Zeros(PGSIZE - ReadIn(read, i))
  }

  /** User page u is mapped to a frame that holds data. */
  ghost predicate Holds(view: map<nat, T.Mapping>, frames: map<nat, seq<byte>>, u: nat, data: seq<byte>,
                        writable: bool) {
    && u in view && view[u].writable == writable && PgNo(view[u].frame) in frames
    && frames[PgNo(view[u].frame)] == data
  }

  /** The first k pages of a segment at user page u0 are loaded. */
  ghost predicate Loaded(view: map<nat, T.Mapping>, frames: map<nat, seq<byte>>, u0: nat, k: nat,
                         file: seq<byte>, ofs: nat, read: nat, writable: bool) {
    forall i {:trigger PageData(file, ofs, read, i)} :: 0 <= i < k ==>
      && Holds(view, frames, u0 + i, PageData(file, ofs, read, i), writable)
      && |F.Clip(file, ofs + i * PGSIZE, ReadIn(read, i))| == ReadIn(read, i)
  }

  /** The byte at user address a. */
  ghost function UserByte(view: map<nat, T.Mapping>, frames: map<nat, seq<byte>>, a: nat): (b: Option<byte>) {
    if PgNo(a) in view && PgNo(view[PgNo(a)].frame) in frames && a % PGSIZE < |frames[PgNo(view[PgNo(a)].frame)]|
    then Some(frames[PgNo(view[PgNo(a)].frame)][a % PGSIZE]) else None
  }

  /** Byte x of the loaded pages is byte ofs + x of the file below read, and zero above. */
  lemma LoadedByte(view: map<nat, T.Mapping>, frames: map<nat, seq<byte>>, u0: nat, k: nat,
                   file: seq<byte>, ofs: nat, read: nat, writable: bool, x: nat)
    requires Loaded(view, frames, u0, k, file, ofs, read, writable) && x < k * PGSIZE
    ensures x < read ==> ofs + x < |file|
    ensures UserByte(view, frames, u0 * PGSIZE + x) == Some(if x < read then file[ofs + x] else 0)
    ensures u0 + x / PGSIZE in view && view[u0 + x / PGSIZE].writable == writable
  {
    var i := x / PGSIZE;
    var d := PageData(file, ofs, read, i);
    assert PgNo(u0 * PGSIZE + x) == u0 + i && (u0 * PGSIZE + x) % PGSIZE == x % PGSIZE;
    assert Holds(view, frames, u0 + i, d, writable);
    ClipByte(file, ofs + i * PGSIZE, ReadIn(read, i), x % PGSIZE);
  }

  lemma ClipByte(file: seq<byte>, pos: nat, n: nat, j: nat)
    requires |F.Clip(file, pos, n)| == n && j < PGSIZE && n <= PGSIZE
    ensures j < n ==> pos + j < |file|
    ensures (F.Clip(file, pos, n) + Zeros(PGSIZE - n))[j] == if j < n then file[pos + j] else 0
  {
  }

  /** A page that cannot be read in full runs past the end of the file. */
  lemma ShortRead(length: nat, pos: nat, n: nat, ofs: nat, read: nat, k: nat)
    requires n == ReadIn(read, k) && n > 0 && pos == ofs + k * PGSIZE && length < pos + n
    ensures read > 0 && length < ofs + read
  {
  }

  /** All frames that are mapped are from the user pool, and each is mapped once. */
  ghost predicate FramesHeld(view: map<nat, T.Mapping>, us: set<nat>) {
    && (forall x {:trigger view[x]} :: x in view ==> PgNo(view[x].frame) in us)
    && (forall x, y {:trigger view[x], view[y]} :: x in view && y in view && x != y ==>
          PgNo(view[x].frame) != PgNo(view[y].frame))
  }

  /** Mapping a new page does not touch the ones that are there. */
  lemma LoadedMore(view: map<nat, T.Mapping>, frames: map<nat, seq<byte>>, u0: nat, k: nat, file: seq<byte>, ofs: nat,
                   read: nat, writable: bool, us: set<nat>, p: nat, pos: nat, n: nat,
                   view': map<nat, T.Mapping>, frames': map<nat, seq<byte>>)
    requires Loaded(view, frames, u0, k, file, ofs, read, writable) && FramesHeld(view, us) && p !in us
    requires u0 + k !in view && n == ReadIn(read, k) && (n > 0 ==> pos == ofs + k * PGSIZE)
    requires |F.Clip(file, pos, n)| == n
    requires view' == view[u0 + k := T.Mapping(p * PGSIZE, writable)]
    requires frames' == frames[p := F.Clip(file, pos, n) + Zeros(PGSIZE - n)]
    ensures Loaded(view', frames', u0, k + 1, file, ofs, read, writable)
    ensures NoOther(view, view', u0 + k, 1)
  {
    assert PgNo(p * PGSIZE) == p;
    assert F.Clip(file, pos, n) == F.Clip(file, ofs + k * PGSIZE, n);
    forall i | 0 <= i < k + 1
      ensures Holds(view', frames', u0 + i, PageData(file, ofs, read, i), writable)
      ensures |F.Clip(file, ofs + i * PGSIZE, ReadIn(read, i))| == ReadIn(read, i)
    {
      if i < k {
        assert Holds(view, frames, u0 + i, PageData(file, ofs, read, i), writable);
      }
    }
  }

  // ---------------------------------------------------------------------
  // The loader
  // ---------------------------------------------------------------------

  /** A process: its page directory and the contents of the frames. */
  class Process {
    const dir: T.PageDir
    var frames: map<nat, seq<byte>>

    ghost predicate Valid()
      reads this, dir, dir.pages, dir.pages.kernel, dir.pages.kernel.usedMap, dir.pages.kernel.usedMap.bits
      reads dir.pages.user, dir.pages.user.usedMap, dir.pages.user.usedMap.bits
    {
      && dir.Valid() && T.InKernel(dir.pages.user)
      && FramesHeld(dir.view, dir.pages.user.used)
    }

    constructor (d: T.PageDir)
      requires d.Valid() && T.InKernel(d.pages.user) && FramesHeld(d.view, d.pages.user.used)
      ensures Valid() && dir == d && frames == map[]
    {
      dir, frames := d, map[];
    }

    /** What is mapped, what the frames hold, and which pages are in use. */
    ghost function Snapshot(): (r: (map<nat, T.Mapping>, map<nat, seq<byte>>, set<nat>, set<nat>))
      reads this, dir, dir.pages, dir.pages.kernel, dir.pages.user
    {
      (dir.view, frames, dir.pages.kernel.used, dir.pages.user.used)
    }

    /** The pages of both pools that are neither tables nor frames of this process. */
    ghost function Others(): (r: (set<nat>, set<nat>))
      reads dir, dir.pages, dir.pages.kernel, dir.pages.user
    {
      (dir.pages.kernel.used - T.TablePages(dir.tables), dir.pages.user.used - T.Frames(dir.view))
    }

    /** install_page(): maps upage unless it is mapped already. */
    method InstallPage(upage: nat, kpage: nat, writable: bool) returns (ok: bool)
      requires dir.Valid() && IsUser(upage) && upage % PGSIZE == 0 && IsFrame(kpage)
      modifies dir, dir.pages.kernel, dir.pages.kernel.usedMap.bits
      ensures dir.Valid() && old(dir.pages.kernel.used) <= dir.pages.kernel.used
      ensures ok ==>
        PgNo(upage) !in old(dir.view) && dir.view == old(dir.view)[PgNo(upage) := T.Mapping(kpage, writable)]
      ensures !ok ==> dir.view == old(dir.view) && dir.pages.kernel.used == old(dir.pages.kernel.used)
      ensures !ok ==> PgNo(upage) in old(dir.view) || P.NoRun(dir.pages.kernel, 1)
      ensures Others().0 == old(Others().0)
    {
      var page := dir.GetPage(upage);
      if page.Some? {
        return false;
      }
      ok := dir.SetPage(upage, kpage, writable);
    }

    /** One turn of the loop of load_segment(): a new frame p with n bytes of the file
        from pos on, then zeros, becomes the page at upage. */
    method LoadPage(file: seq<byte>, pos: nat, n: nat, upage: nat, writable: bool, ghost u: nat)
      returns (ok: bool, ghost p: nat)
      requires Valid() && IsUser(upage) && upage == u * PGSIZE && n <= PGSIZE
      modifies this, dir, dir.pages.kernel, dir.pages.kernel.usedMap.bits, dir.pages.user, dir.pages.user.usedMap.bits
      ensures Valid() && Kept(old(dir.view), old(frames), dir.view, frames) && Others() == old(Others())
      ensures ok ==> |F.Clip(file, pos, n)| == n && u !in old(dir.view)
      ensures ok ==> p !in old(dir.pages.kernel.used) && p !in old(dir.pages.user.used)
      ensures ok ==> dir.view == old(dir.view)[u := T.Mapping(p * PGSIZE, writable)]
      ensures ok ==> frames == old(frames)[p := F.Clip(file, pos, n) + Zeros(PGSIZE - n)]
      ensures !ok ==> (n > 0 && |file| < pos + n) || u in old(dir.view) || NoPage()
      ensures !ok ==> dir.view == old(dir.view)
    {
      p := 0;
      assert PgNo(upage) == u;
      ghost var view, us := dir.view, dir.pages.user.used;
      var page := GetFrame();
      if page.None? {
        return false, 0;
      }
      p := page.value;
      var data := F.Clip(file, pos, n);
      if |data| != n {
        DropFrame(page.value);
        return false, p;
      }
      frames := frames[page.value := data + Zeros(PGSIZE - n)];
      KeptFrame(view, old(frames), frames, us, p);
      ok := InstallPage(upage, page.value * PGSIZE, writable);
      if ok {
        FramesMore(view, us, u, p, writable);
        KeptMore(view, old(frames), frames, u, dir.view);
      } else {
        DropFrame(page.value);
      }
    }

    /** One of the pools has no free page. */
    ghost predicate NoPage()
      reads dir, dir.pages, dir.pages.kernel, dir.pages.kernel.usedMap, dir.pages.user, dir.pages.user.usedMap
    {
      P.NoRun(dir.pages.user, 1) || P.NoRun(dir.pages.kernel, 1)
    }

    /** palloc_get_page (PAL_USER): a frame that no one has. */
    method GetFrame() returns (r: Option<nat>)
      requires Valid()
      modifies dir.pages.user, dir.pages.user.usedMap.bits
      ensures Valid() && (r.None? ==> dir.pages.user.used == old(dir.pages.user.used) && P.NoRun(dir.pages.user, 1))
      ensures r.Some? ==> r.value !in dir.pages.kernel.used && r.value !in old(dir.pages.user.used)
      ensures r.Some? ==> dir.pages.user.used == old(dir.pages.user.used) + {r.value} && IsFrame(r.value * PGSIZE)
    {
      r := dir.pages.user.GetMultiple(1);
      if r.Some? {
        FreshFrame(dir.pages, old(dir.pages.user.used), r.value);
      }
    }

    /** palloc_free_page() of a frame that was not mapped. */
    method DropFrame(p: nat)
      requires Valid() && p in dir.pages.user.used && p !in dir.pages.kernel.used
      requires FramesHeld(dir.view, dir.pages.user.used - {p})
      modifies dir.pages.kernel, dir.pages.kernel.usedMap.bits, dir.pages.user, dir.pages.user.usedMap.bits
      ensures Valid() && dir.pages.user.used == old(dir.pages.user.used) - {p}
      ensures dir.pages.kernel.used == old(dir.pages.kernel.used)
    {
      assert P.Pages(p, 1) == {p};
      dir.pages.FreeMultiple(p, 1);
    }

    /** load_segment(): the pages from upage on come to hold readBytes bytes of the file
        from ofs on and then zeros.  A turn of the loop does one page, and no
        subtraction or address wraps around. */
    method LoadSegment(file: seq<byte>, ofs: nat, upage0: nat, readBytes0: nat, zeroBytes0: nat, writable: bool)
      returns (ok: bool)
      requires Valid() && ofs % PGSIZE == 0 && upage0 % PGSIZE == 0 && (readBytes0 + zeroBytes0) % PGSIZE == 0
      requires upage0 + readBytes0 + zeroBytes0 <= PHYS_BASE
      modifies this, dir, dir.pages.kernel, dir.pages.kernel.usedMap.bits, dir.pages.user, dir.pages.user.usedMap.bits
      ensures Valid() && Kept(old(dir.view), old(frames), dir.view, frames) && Others() == old(Others())
      ensures ok ==>
        Loaded(dir.view, frames, PgNo(upage0), (readBytes0 + zeroBytes0) / PGSIZE, file, ofs, readBytes0, writable)
      ensures NoOther(old(dir.view), dir.view, PgNo(upage0), (readBytes0 + zeroBytes0) / PGSIZE)
      ensures !ok ==>
        || (readBytes0 > 0 && |file| < ofs + readBytes0) || NoPage()
        || AnyMapped(old(dir.view), PgNo(upage0), (readBytes0 + zeroBytes0) / PGSIZE)
    {
      var pos: nat, upage: nat, readBytes: nat, zeroBytes: nat := ofs, upage0, readBytes0, zeroBytes0;
      ghost var k: nat, n: nat, u0: nat := 0, (readBytes0 + zeroBytes0) / PGSIZE, PgNo(upage0);
      assert upage0 == u0 * PGSIZE;
      while readBytes > 0 || zeroBytes > 0
        invariant Valid() && Kept(old(dir.view), old(frames), dir.view, frames) && Others() == old(Others())
        invariant Remaining(readBytes0, n, k, readBytes, zeroBytes) && upage == (u0 + k) * PGSIZE
        invariant readBytes > 0 ==> pos == ofs + k * PGSIZE
        invariant Loaded(dir.view, frames, u0, k, file, ofs, readBytes0, writable)
        invariant NoOther(old(dir.view), dir.view, u0, k)
        decreases n - k
      {
        var pageReadBytes := if readBytes < PGSIZE then readBytes else PGSIZE;
        var pageZeroBytes := PGSIZE - pageReadBytes;
        OnePage(readBytes0, n, k, readBytes, zeroBytes);
        ghost var view, fs := dir.view, frames;
        ok := NextPage(file, pos, pageReadBytes, upage, writable, ofs, u0, readBytes0, k);
        KeptTrans(old(dir.view), old(frames), view, fs, dir.view, frames);
        NoOtherMore(old(dir.view), view, dir.view, u0, k);
        if !ok {
          assert u0 + k in view ==> view[u0 + k] == view[u0 + k] && u0 + k in old(dir.view);
          return;
        }
        pos, readBytes, zeroBytes := pos + pageReadBytes, readBytes - pageReadBytes, zeroBytes - pageZeroBytes;
        upage, k := upage + PGSIZE, k + 1;
      }
      ok := true;
    }

    /** The same, as the k-th page of a segment. */
    method NextPage(file: seq<byte>, pos: nat, n: nat, upage: nat, writable: bool, ghost ofs: nat, ghost u0: nat,
                    ghost read: nat, ghost k: nat)
        returns (ok: bool)
      requires Valid() && IsUser(upage) && upage == (u0 + k) * PGSIZE
      requires n == ReadIn(read, k) && (n > 0 ==> pos == ofs + k * PGSIZE)
      requires Loaded(dir.view, frames, u0, k, file, ofs, read, writable)
      modifies this, dir, dir.pages.kernel, dir.pages.kernel.usedMap.bits, dir.pages.user, dir.pages.user.usedMap.bits
      ensures Valid() && Kept(old(dir.view), old(frames), dir.view, frames) && Others() == old(Others())
      ensures ok ==> Loaded(dir.view, frames, u0, k + 1, file, ofs, read, writable)
      ensures NoOther(old(dir.view), dir.view, u0 + k, 1)
      ensures !ok ==> (read > 0 && |file| < ofs + read) || NoPage() || u0 + k in old(dir.view)
    {
      ghost var view, fs, us := dir.view, frames, dir.pages.user.used;
      ghost var p;
      ok, p := LoadPage(file, pos, n, upage, writable, u0 + k);
      if ok {
        LoadedMore(view, fs, u0, k, file, ofs, read, writable, us, p, pos, n, dir.view, frames);
      } else if n > 0 && |file| < pos + n {
        ShortRead(|file|, pos, n, ofs, read, k);
      }
    }

    /** The PT_LOAD case of load(), in 32-bit arithmetic.  When it succeeds, the segment
        is loadable and each of its addresses holds the byte that its header says. */
    method LoadProgramSegment(ph: Phdr, file: seq<byte>) returns (ok: bool)
      requires Valid() && IsPhdr(ph)
      modifies this, dir, dir.pages.kernel, dir.pages.kernel.usedMap.bits, dir.pages.user, dir.pages.user.usedMap.bits
      ensures Valid() && Kept(old(dir.view), old(frames), dir.view, frames) && Others() == old(Others())
      ensures ok ==> Loadable(ph, |file|)
      ensures NoOther(old(dir.view), dir.view, PgNo(ph.vaddr), SegmentPageCnt(ph))
      ensures forall u :: u in dir.view && u !in old(dir.view) ==> 1 <= u < 0xC_0000
      ensures ph.vaddr < 4096 || ph.vaddr + ph.memsz >= 0xC000_0000 ==> !ok && Snapshot() == old(Snapshot())
      ensures ph.offset > |file| || ph.offset % 4096 != ph.vaddr % 4096 ==> !ok && Snapshot() == old(Snapshot())
      ensures ph.memsz == 0 || ph.memsz < ph.filesz ==> !ok && Snapshot() == old(Snapshot())
      ensures ok ==> forall a :: ph.vaddr <= a < ph.vaddr + ph.memsz ==>
        SegmentByte(dir.view, frames, ph, file, a)
      ensures !ok && Loadable(ph, |file|) ==>
        || |file| < ph.offset + ph.filesz || NoPage()
        || AnyMapped(old(dir.view), PgNo(ph.vaddr), SegmentPageCnt(ph))
    {
      ok := ValidateSegment(ph, |file|);
      if !ok {
        return;
      }
      var writable := And(ph.flags, PF_W) != 0;
      var filePage, memPage, readBytes, zeroBytes := SegmentSizes(ph, |file|);
      ok := LoadSegment(file, filePage, memPage, readBytes, zeroBytes, writable);
      SegmentPages(ph, filePage, memPage, readBytes, readBytes + zeroBytes, |file|);
      if ok {
        forall a | ph.vaddr <= a < ph.vaddr + ph.memsz
          ensures SegmentByte(dir.view, frames, ph, file, a)
        {
          SegmentAt(dir.view, frames, ph, file, filePage, memPage, readBytes, readBytes + zeroBytes, writable, a);
        }
      }
    }

    /** pagedir_destroy() of the process, as process_exit() calls it: every page that its
        directory, its tables and its frames took is free again, and no other. */
    method Exit() returns (freed: seq<nat>)
      requires Valid()
      modifies dir.pages.kernel, dir.pages.kernel.usedMap.bits, dir.pages.user, dir.pages.user.usedMap.bits
      ensures dir.pages.Valid()
      ensures dir.pages.kernel.used == old(Others()).0 - {dir.pdPage} && dir.pages.user.used == old(Others()).1
      ensures ListOf(freed, T.Frames(dir.view) + T.TablePages(dir.tables) + {dir.pdPage})
    {
      PoolsApart(dir.pages);
      ProcessExclusive(dir.view, dir.tables, dir.slot, dir.pdPage, dir.pages.kernel.used, dir.pages.user.used);
      freed := dir.Destroy();
    }
  }

  /** The frames of a process are neither its tables nor its directory. */
  lemma ProcessExclusive(view: map<nat, T.Mapping>, tables: map<nat, seq<nat>>, slot: map<nat, nat>, pdPage: nat,
                         ks: set<nat>, us: set<nat>)
    requires FramesHeld(view, us) && T.TablesHeld(tables, ks, pdPage) && slot.Keys == tables.Keys && ks !! us
    ensures T.Exclusive(view, slot, pdPage, ks, us)
    ensures T.Frames(view) !! ks && T.TablePages(tables) !! us && pdPage !in us
  {
  }

  lemma PoolsApart(pages: P.PageAllocator)
    requires pages.Valid()
    ensures pages.kernel.used !! pages.user.used
  {
  }

  /** The user address a of the segment holds what the header says. */
  ghost predicate SegmentByte(view: map<nat, T.Mapping>, frames: map<nat, seq<byte>>, ph: Phdr, file: seq<byte>, a: nat)
    requires ph.vaddr <= a
  {
    && PgNo(a) in view && view[PgNo(a)].writable == (And(ph.flags, PF_W) != 0)
    && (a < ph.vaddr + ph.filesz ==> ph.offset + (a - ph.vaddr) < |file|)
    && UserByte(view, frames, a) == Some(if a < ph.vaddr + ph.filesz then file[ph.offset + (a - ph.vaddr)] else 0)
  }

  lemma SegmentAt(view: map<nat, T.Mapping>, frames: map<nat, seq<byte>>, ph: Phdr, file: seq<byte>, filePage: nat,
                  memPage: nat, read: nat, total: nat, writable: bool, a: nat)
    requires Loadable(ph, |file|) && ph.vaddr <= a < ph.vaddr + ph.memsz
    requires SizesOk(ph, filePage, memPage, read, total) && writable == (And(ph.flags, PF_W) != 0)
    requires Loaded(view, frames, PgNo(memPage), total / PGSIZE, file, filePage, read, writable)
    ensures SegmentByte(view, frames, ph, file, a)
  {
    LoadedByte(view, frames, PgNo(memPage), total / PGSIZE, file, filePage, read, writable, a - memPage);
    assert PgNo(memPage) * PGSIZE == memPage && PgNo(a) == PgNo(memPage) + (a - memPage) / PGSIZE;
  }

  /** What load() computes for a segment: the pages begin at the start of its first
      page and cover it, and the bytes to read end where its file part ends. */
  ghost predicate SizesOk(ph: Phdr, filePage: nat, memPage: nat, read: nat, total: nat) {
    && memPage == ph.vaddr - ph.vaddr % PGSIZE && filePage == ph.offset - ph.vaddr % PGSIZE
    && read == (if ph.filesz > 0 then ph.vaddr % PGSIZE + ph.filesz else 0)
    && total % PGSIZE == 0 && read <= total && ph.vaddr + ph.memsz <= memPage + total <= PHYS_BASE
    && memPage + total < ph.vaddr + ph.memsz + PGSIZE
  }

  /** The pages loaded are those of the segment, and the bytes read are its bytes. */
  lemma SegmentPages(ph: Phdr, filePage: nat, memPage: nat, read: nat, total: nat, fileLength: nat)
    requires Loadable(ph, fileLength) && SizesOk(ph, filePage, memPage, read, total)
    ensures PgNo(memPage) == PgNo(ph.vaddr) <= PgNo(ph.vaddr + ph.memsz - 1)
    ensures total / PGSIZE == SegmentPageCnt(ph)
    ensures read > 0 ==> filePage + read == ph.offset + ph.filesz
  {
  }

  /** The computation in the PT_LOAD case of load(), in 32 bits. */
  method SegmentSizes(ph: Phdr, ghost fileLength: nat)
    returns (filePage: nat, memPage: nat, readBytes: nat, zeroBytes: nat)
    requires IsPhdr(ph) && Loadable(ph, fileLength)
    ensures SizesOk(ph, filePage, memPage, readBytes, readBytes + zeroBytes)
  {
    filePage := T.PageStart(ph.offset);
    memPage := T.PageStart(ph.vaddr);
    var pageOffset := T.Offset(ph.vaddr);
    var rounded := RoundUp32(pageOffset, ph.memsz, memPage);
    if ph.filesz > 0 {
      readBytes := (pageOffset + ph.filesz) % WORD;
      zeroBytes := (rounded - readBytes) % WORD;
    } else {
      readBytes, zeroBytes := 0, rounded;
    }
  }

  /** ROUND_UP (pageOffset + memsz, PGSIZE) in 32 bits: it does not wrap around. */
  method RoundUp32(pageOffset: nat, memsz: nat, ghost memPage: nat) returns (r: nat)
    requires memPage % PGSIZE == 0 && memPage + pageOffset + memsz < PHYS_BASE
    ensures r % PGSIZE == 0 && pageOffset + memsz <= r < pageOffset + memsz + PGSIZE && memPage + r <= PHYS_BASE
  {
    r := ((pageOffset + memsz + PGSIZE - 1) % WORD) / PGSIZE * PGSIZE;
  }

  /** What is left to load after k of n pages. */
  ghost predicate Remaining(read: nat, n: nat, k: nat, r: nat, z: nat) {
    k <= n && r + z == (n - k) * PGSIZE && r == if read > k * PGSIZE then read - k * PGSIZE else 0
  }

  lemma OnePage(read: nat, n: nat, k: nat, r: nat, z: nat)
    requires Remaining(read, n, k, r, z) && r + z > 0
    ensures var m := if r < PGSIZE then r else PGSIZE;
      m == ReadIn(read, k) && PGSIZE - m <= z && k < n && Remaining(read, n, k + 1, r - m, z - (PGSIZE - m))
  {
  }

  /** A new frame for a page that is not mapped: what others have stays. */
  lemma FramesMore(view: map<nat, T.Mapping>, us: set<nat>, u: nat, p: nat, writable: bool)
    requires FramesHeld(view, us) && p !in us && u !in view
    ensures var view' := view[u := T.Mapping(p * PGSIZE, writable)];
      FramesHeld(view', us + {p}) && us + {p} - T.Frames(view') == us - T.Frames(view)
  {
    var view' := view[u := T.Mapping(p * PGSIZE, writable)];
    assert PgNo(p * PGSIZE) == p && u in view' && PgNo(view'[u].frame) == p;
    forall x ensures x in T.Frames(view') <==> x in T.Frames(view) || x == p {
      if x in T.Frames(view) {
        var y :| y in view && PgNo(view[y].frame) == x;
        assert y in view' && view'[y] == view[y];
      }
    }
  }

  lemma KeptMore(view: map<nat, T.Mapping>, frames: map<nat, seq<byte>>, frames': map<nat, seq<byte>>, u: nat,
                 view': map<nat, T.Mapping>)
    requires Kept(view, frames, view, frames') && u !in view && u in view' && view' == view[u := view'[u]]
    ensures Kept(view, frames, view', frames')
  {
  }

  /** One of the n pages from u0 on is mapped. */
  ghost predicate AnyMapped(view: map<nat, T.Mapping>, u0: nat, n: nat) {
    exists u {:trigger view[u]} :: u in view && u0 <= u < u0 + n
  }

  /** Only pages among the k from u0 on were mapped. */
  ghost predicate NoOther(view: map<nat, T.Mapping>, view': map<nat, T.Mapping>, u0: nat, k: nat) {
    forall u {:trigger view'[u]} :: u in view' ==> u in view || u0 <= u < u0 + k
  }

  lemma NoOtherMore(view: map<nat, T.Mapping>, v1: map<nat, T.Mapping>, v2: map<nat, T.Mapping>, u0: nat, k: nat)
    requires NoOther(view, v1, u0, k) && NoOther(v1, v2, u0 + k, 1)
    ensures NoOther(view, v2, u0, k + 1)
  {
    forall u | u in v2 ensures u in view || u0 <= u < u0 + k + 1 {
      assert v2[u] == v2[u];
      if u in v1 {
        assert v1[u] == v1[u];
      }
    }
  }

  /** What was mapped is still mapped to the same frames with the same contents. */
  ghost predicate Kept(view: map<nat, T.Mapping>, frames: map<nat, seq<byte>>, view': map<nat, T.Mapping>,
                       frames': map<nat, seq<byte>>) {
    forall u {:trigger view[u]} :: u in view ==>
      && u in view' && view'[u] == view[u]
      && (PgNo(view[u].frame) in frames ==>
            PgNo(view[u].frame) in frames' && frames'[PgNo(view[u].frame)] == frames[PgNo(view[u].frame)])
  }

  lemma KeptTrans(v1: map<nat, T.Mapping>, f1: map<nat, seq<byte>>, v2: map<nat, T.Mapping>, f2: map<nat, seq<byte>>,
                  v3: map<nat, T.Mapping>, f3: map<nat, seq<byte>>)
    requires Kept(v1, f1, v2, f2) && Kept(v2, f2, v3, f3)
    ensures Kept(v1, f1, v3, f3)
  {
    forall u | u in v1
      ensures u in v3 && v3[u] == v1[u]
      ensures PgNo(v1[u].frame) in f1 ==> PgNo(v1[u].frame) in f3 && f3[PgNo(v1[u].frame)] == f1[PgNo(v1[u].frame)]
    {
      assert v2[u] == v1[u];
    }
  }

  lemma FreshFrame(pages: P.PageAllocator, us: set<nat>, p: nat)
    requires pages.Valid() && T.InKernel(pages.user) && p !in us && pages.user.used == us + P.Pages(p, 1)
    ensures p in pages.user.used && p !in pages.kernel.used && IsFrame(p * PGSIZE)
    ensures P.Pages(p, 1) == {p} && PgNo(p * PGSIZE) == p
  {
    assert P.Pages(p, 1) == {p};
  }

  lemma KeptFrame(view: map<nat, T.Mapping>, frames: map<nat, seq<byte>>, frames': map<nat, seq<byte>>, us: set<nat>,
                  p: nat)
    requires FramesHeld(view, us) && p !in us
    requires p in frames' && frames' == frames[p := frames'[p]]
    ensures Kept(view, frames, view, frames')
  {
  }
}
