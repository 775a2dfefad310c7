/** Two-level page tables: src/userprog/pagedir.c.  A page directory is a finite map
    from user pages to frames. */
module PageTables {
  import opened Bits
  import opened DistinctLists
  import opened Options
  import opened Paging
  import opened Words
  import P = Palloc

  /** pd_no (PHYS_BASE): the directory entries below it are for user pages. */
  const USER_TABLES: nat := 768

  const USER_PAGES: nat := 786432

  /** What a user page is mapped to: a frame, by its kernel virtual address. */
  datatype Mapping = Mapping(frame: nat, writable: bool)

  // ---------------------------------------------------------------------
  // Entries as numbers
  // ---------------------------------------------------------------------

  function FrameOf(e: nat): (page: nat) {
    PHYS_BASE + (e - e % PGSIZE)
  }

  predicate IsPresent(e: nat) {
    e % 2 == 1
  }

  predicate IsWritable(e: nat) {
    (e / 2) % 2 == 1
  }

  lemma FlagParts(e: nat, page: nat, f: nat)
    requires IsFrame(page) && (f == 5 || f == 7) && e == VtoP(page) + f
    ensures IsPresent(e) && FrameOf(e) == page && (IsWritable(e) <==> f == 7)
  {
  }

  /** *entry & PTE_P */
  method TestPresent(e: nat) returns (r: bool)
    ensures r <==> IsPresent(e)
  {
    EntryFlags(e);
    r := And(e, PTE_P) != 0;
  }

  /** pde_get_pt() and pte_get_page() */
  method GetFrame(e: nat) returns (page: nat)
    requires e < WORD
    ensures page == FrameOf(e)
  {
    EntryPage(e);
    page := PteGetPage(e);
  }

  /** pde_create() */
  method MakePde(pt: nat) returns (e: nat)
    requires IsFrame(pt)
    ensures 0 < e < WORD && IsPresent(e) && FrameOf(e) == pt
  {
    e := PdeCreate(pt);
    EntryIs(pt, true, e);
    FlagParts(e, pt, 7);
  }

  /** pte_create_user() */
  method MakePte(page: nat, writable: bool) returns (e: nat)
    requires IsFrame(page)
    ensures e < WORD && IsPresent(e) && FrameOf(e) == page && (IsWritable(e) <==> writable)
  {
    e := PteCreateUser(page, writable);
    EntryIs(page, writable, e);
    FlagParts(e, page, if writable then 7 else 5);
  }

  /** entry & ~PTE_P: the other bits stay. */
  method MakeAbsent(e: nat) returns (r: nat)
    requires e < WORD
    ensures r < WORD && !IsPresent(r) && r / 2 == e / 2
  {
    ClearPresent(e);
    r := And(e, Not(PTE_P));
    EntryFlags(r);
  }

  /** pd_no() and pt_no() of a user address */
  method Indices(va: nat) returns (i: nat, j: nat)
    requires IsUser(va)
    ensures i == PgNo(va) / ENTRIES < USER_TABLES && j == PgNo(va) % ENTRIES && PgNo(va) < USER_PAGES
  {
    TableIndex(va);
    i, j := PdNo(va), PtNo(va);
  }

  method Offset(va: nat) returns (ofs: nat)
    requires va < WORD
    ensures ofs == va % PGSIZE
  {
    PageParts(va);
    ofs := PgOfs(va);
  }

  /** va & ~PGMASK */
  method PageStart(va: nat) returns (r: nat)
    requires va < WORD
    ensures r == va - va % PGSIZE
  {
    PageParts(va);
    r := PgRoundDown(va);
  }

  // ---------------------------------------------------------------------
  // The tables as a map
  // ---------------------------------------------------------------------

  /** The entry for user page u; 0 if there is no table for it. */
  ghost function Entry(pd: seq<nat>, tables: map<nat, seq<nat>>, u: nat): (e: nat) {
    var i, j := u / ENTRIES, u % ENTRIES;
    if i < |pd| && pd[i] != 0 && FrameOf(pd[i]) in tables && j < |tables[FrameOf(pd[i])]|
    then tables[FrameOf(pd[i])][j] else 0
  }

  /** The table at address t belongs to one directory entry. */
  ghost predicate TableOk(pd: seq<nat>, slot: map<nat, nat>, t: nat, table: seq<nat>) {
    && IsFrame(t) && |table| == ENTRIES && t in slot && slot[t] < USER_TABLES <= |pd|
    && pd[slot[t]] != 0 && FrameOf(pd[slot[t]]) == t && forall j :: 0 <= j < ENTRIES ==> table[j] < WORD
  }

  /** The user part of the directory: every entry is zero or leads to a table of its
      own, and there are no other tables. */
  ghost predicate Shape(pd: seq<nat>, tables: map<nat, seq<nat>>, slot: map<nat, nat>) {
    && |pd| == ENTRIES
    && (forall i {:trigger pd[i]} :: 0 <= i < USER_TABLES && pd[i] != 0 ==>
          && pd[i] < WORD && IsPresent(pd[i])
          && FrameOf(pd[i]) in tables && FrameOf(pd[i]) in slot && slot[FrameOf(pd[i])] == i)
    && (forall t {:trigger tables[t]} :: t in tables ==> TableOk(pd, slot, t, tables[t]))
    && slot.Keys == tables.Keys
  }

  ghost predicate ViewOk(pd: seq<nat>, tables: map<nat, seq<nat>>, view: map<nat, Mapping>) {
    && (forall u {:trigger Entry(pd, tables, u)} {:trigger u in view} :: 0 <= u < USER_PAGES ==>
          var e := Entry(pd, tables, u);
          (u in view <==> IsPresent(e)) && (u in view ==> view[u] == Mapping(FrameOf(e), IsWritable(e))))
    && (forall u {:trigger u in view} :: u in view ==> u < USER_PAGES)
  }

  lemma EntryBelow(pd: seq<nat>, tables: map<nat, seq<nat>>, slot: map<nat, nat>, u: nat)
    requires Shape(pd, tables, slot) && u < USER_PAGES
    ensures Entry(pd, tables, u) < WORD
  {
    var i := u / ENTRIES;
    if pd[i] != 0 {
      assert TableOk(pd, slot, FrameOf(pd[i]), tables[FrameOf(pd[i])]);
    }
  }

  /** The table holds the entries of the user pages from first on. */
  ghost predicate IsTableFor(pd: seq<nat>, tables: map<nat, seq<nat>>, table: seq<nat>, first: nat) {
    && |table| == ENTRIES && first + ENTRIES <= USER_PAGES
    && forall j {:trigger table[j]} :: 0 <= j < ENTRIES ==> table[j] < WORD && table[j] == Entry(pd, tables, first + j)
  }

  lemma TableEntries(pd: seq<nat>, tables: map<nat, seq<nat>>, slot: map<nat, nat>, i: nat)
    requires Shape(pd, tables, slot) && i < USER_TABLES && pd[i] != 0
    ensures FrameOf(pd[i]) in tables && IsTableFor(pd, tables, tables[FrameOf(pd[i])], i * ENTRIES)
  {
    assert TableOk(pd, slot, FrameOf(pd[i]), tables[FrameOf(pd[i])]);
  }

  function NoEntries(): (t: seq<nat>)
    ensures |t| == ENTRIES && forall j :: 0 <= j < ENTRIES ==> t[j] == 0
  {
    seq(ENTRIES, _ => 0)
  }

  /** lookup_page() makes a table of zeros at t: no mapping changes. */
  lemma AddTable(pd: seq<nat>, tables: map<nat, seq<nat>>, slot: map<nat, nat>, view: map<nat, Mapping>, i: nat,
                 t: nat, e: nat)
    requires Shape(pd, tables, slot) && ViewOk(pd, tables, view) && i < USER_TABLES && pd[i] == 0
    requires IsFrame(t) && t !in tables && 0 < e < WORD && IsPresent(e) && FrameOf(e) == t
    ensures Shape(pd[i := e], tables[t := NoEntries()], slot[t := i])
    ensures ViewOk(pd[i := e], tables[t := NoEntries()], view)
  {
    var pd', tables', slot' := pd[i := e], tables[t := NoEntries()], slot[t := i];
    forall t' | t' in tables' ensures TableOk(pd', slot', t', tables'[t']) {
      if t' != t {
        assert TableOk(pd, slot, t', tables[t']);
      }
    }
    forall u: nat | u < USER_PAGES ensures Entry(pd', tables', u) == Entry(pd, tables, u) {
      var k := u / ENTRIES;
      assert k != i ==> pd'[k] == pd[k];
    }
    ViewKept(pd, tables, pd', tables', view);
  }

  lemma ViewKept(pd: seq<nat>, tables: map<nat, seq<nat>>, pd': seq<nat>, tables': map<nat, seq<nat>>,
                 view: map<nat, Mapping>)
    requires ViewOk(pd, tables, view)
    requires forall u: nat {:trigger Entry(pd', tables', u)} :: u < USER_PAGES ==>
      Entry(pd', tables', u) == Entry(pd, tables, u)
    ensures ViewOk(pd', tables', view)
  {
  }

  /** The tables after entry j of the table at t was set to x. */
  function Store(tables: map<nat, seq<nat>>, t: nat, j: nat, x: nat): (r: map<nat, seq<nat>>)
    requires t in tables && j < |tables[t]|
  {
    var table: seq<nat> := tables[t][j := x];
    tables[t := table]
  }

  /** Writing the entry of user page u changes that entry and no other. */
  lemma SetEntry(pd: seq<nat>, tables: map<nat, seq<nat>>, slot: map<nat, nat>, u: nat, x: nat, v: nat)
    requires Shape(pd, tables, slot) && u < USER_PAGES && v < USER_PAGES && pd[u / ENTRIES] != 0 && x < WORD
    ensures var t := FrameOf(pd[u / ENTRIES]);
      && t in tables && |tables[t]| == ENTRIES
      && Entry(pd, Store(tables, t, u % ENTRIES, x), v) == if v == u then x else Entry(pd, tables, v)
  {
    var i := u / ENTRIES;
    var t := FrameOf(pd[i]);
    assert TableOk(pd, slot, t, tables[t]);
    var k := v / ENTRIES;
    if k != i && pd[k] != 0 {
      assert slot[FrameOf(pd[k])] == k;
    }
  }

  lemma SetShape(pd: seq<nat>, tables: map<nat, seq<nat>>, slot: map<nat, nat>, i: nat, j: nat, x: nat)
    requires Shape(pd, tables, slot) && i < USER_TABLES && pd[i] != 0 && j < ENTRIES && x < WORD
    ensures var t := FrameOf(pd[i]);
      t in tables && |tables[t]| == ENTRIES && Shape(pd, Store(tables, t, j, x), slot)
  {
    var t := FrameOf(pd[i]);
    assert TableOk(pd, slot, t, tables[t]);
    var tables' := Store(tables, t, j, x);
    forall t' | t' in tables' ensures TableOk(pd, slot, t', tables'[t']) {
      assert TableOk(pd, slot, t', tables[t']);
    }
  }

  /** The view with user page u mapped as the entry x says. */
  ghost function Remap(view: map<nat, Mapping>, u: nat, x: nat): (r: map<nat, Mapping>) {
    if IsPresent(x) then view[u := Mapping(FrameOf(x), IsWritable(x))] else view - {u}
  }

  lemma SetView(pd: seq<nat>, tables: map<nat, seq<nat>>, slot: map<nat, nat>, view: map<nat, Mapping>, u: nat, x: nat)
    requires Shape(pd, tables, slot) && ViewOk(pd, tables, view) && u < USER_PAGES && pd[u / ENTRIES] != 0 && x < WORD
    ensures var t := FrameOf(pd[u / ENTRIES]);
      && t in tables && |tables[t]| == ENTRIES
      && ViewOk(pd, Store(tables, t, u % ENTRIES, x), Remap(view, u, x))
  {
    SetEntry(pd, tables, slot, u, x, u);
    var t := FrameOf(pd[u / ENTRIES]);
    var tables', view' := Store(tables, t, u % ENTRIES, x), Remap(view, u, x);
    forall v: nat | v < USER_PAGES
      ensures var e := Entry(pd, tables', v);
        (v in view' <==> IsPresent(e)) && (v in view' ==> view'[v] == Mapping(FrameOf(e), IsWritable(e)))
    {
      SetEntry(pd, tables, slot, u, x, v);
      assert v in view <==> IsPresent(Entry(pd, tables, v));
    }
  }

  // ---------------------------------------------------------------------
  // The page directory
  // ---------------------------------------------------------------------

  /** Every page of the kernel pool has a kernel virtual address. */
  ghost predicate InKernel(pool: P.Pool)
    reads pool, pool.usedMap
  {
    USER_PAGES <= pool.basePage && (pool.basePage + pool.usedMap.bitCnt) * PGSIZE <= WORD
  }

  class PageDir {
    const pages: P.PageAllocator
    const pdPage: nat
    var pd: seq<nat>
    var tables: map<nat, seq<nat>>
    ghost var slot: map<nat, nat>
    ghost var view: map<nat, Mapping>

    ghost predicate Valid()
      reads this, pages, pages.kernel, pages.kernel.usedMap, pages.kernel.usedMap.bits
      reads pages.user, pages.user.usedMap, pages.user.usedMap.bits
    {
      && pages.Valid() && InKernel(pages.kernel)
      && Shape(pd, tables, slot) && ViewOk(pd, tables, view) && TablesHeld(tables, pages.kernel.used, pdPage)
    }

    /** pagedir_create(), once the page pdPage was obtained: a copy of a directory
        that has no user mappings. */
    constructor (p: P.PageAllocator, page: nat, init: seq<nat>)
      requires p.Valid() && InKernel(p.kernel) && page in p.kernel.used
      requires |init| == ENTRIES && forall i :: 0 <= i < USER_TABLES ==> init[i] == 0
      ensures Valid() && pages == p && pdPage == page && view == map[] && pd[768..] == init[768..]
    {
      pages, pdPage, pd, tables, slot, view := p, page, init, map[], map[], map[];
    }

    /** lookup_page() of a user address, creating a table if there is none: the table
        that has its entry, or null when no page is free. */
    method LookupPage(va: nat) returns (r: Option<nat>)
      requires Valid() && IsUser(va)
      modifies this, pages.kernel, pages.kernel.usedMap.bits
      ensures Valid() && view == old(view) && PgNo(va) < USER_PAGES && old(pages.kernel.used) <= pages.kernel.used
      ensures var i := PgNo(va) / ENTRIES;
        && (r.Some? ==> pd[i] != 0 && r.value == FrameOf(pd[i]))
        && (r.None? ==> pd[i] == 0 && P.NoRun(pages.kernel, 1))
        && (r.None? || old(pd)[i] != 0 ==>
             (pd, tables, slot, pages.kernel.used) == old((pd, tables, slot, pages.kernel.used)))
      ensures pages.kernel.used - TablePages(tables) == old(pages.kernel.used - TablePages(tables))
      ensures pd[768..] == old(pd[768..])
    {
      var i, j := Indices(va);
      if pd[i] == 0 {
        var page := pages.kernel.GetMultiple(1);
        if page.None? {
          return None;
        }
        OneMoreTable(tables, pages.kernel.used, old(pages.kernel.used), page.value);
        NewTable(i, page.value);
      }
      var t := GetFrame(pd[i]);
      r := Some(t);
    }

    /** A page that was just allocated becomes the table of directory entry i. */
    method NewTable(i: nat, page: nat)
      requires pages.Valid() && InKernel(pages.kernel) && Shape(pd, tables, slot) && ViewOk(pd, tables, view)
      requires i < USER_TABLES && pd[i] == 0 && page in pages.kernel.used
      requires TablesHeld(tables, pages.kernel.used - {page}, pdPage)
      modifies this
      ensures Valid() && view == old(view) && pd[i] != 0
      ensures tables == old(tables)[page * PGSIZE := NoEntries()] && pd == old(pd)[i := pd[i]]
    {
      var t := page * PGSIZE;
      NewAddress(tables, pages.kernel.used, pdPage, page);
      var e := MakePde(t);
      AddTable(pd, tables, slot, view, i, t, e);
      pd, tables, slot := pd[i := e], tables[t := NoEntries()], slot[t := i];
    }

    /** pagedir_set_page(): maps a user page that is not mapped.  It fails exactly when
        a table is missing and no page is free, and then nothing changes. */
    method SetPage(upage: nat, kpage: nat, writable: bool) returns (ok: bool)
      requires Valid() && IsUser(upage) && upage % PGSIZE == 0 && IsFrame(kpage) && PgNo(upage) !in view
      modifies this, pages.kernel, pages.kernel.usedMap.bits
      ensures Valid()
      ensures ok ==>
        view == old(view)[PgNo(upage) := Mapping(kpage, writable)] && old(pages.kernel.used) <= pages.kernel.used
      ensures !ok ==> (pd, tables, view, pages.kernel.used) == old((pd, tables, view, pages.kernel.used))
      ensures !ok ==> P.NoRun(pages.kernel, 1)
      ensures pages.kernel.used - TablePages(tables) == old(pages.kernel.used - TablePages(tables))
      ensures pd[768..] == old(pd[768..])
    {
      var i, j := Indices(upage);
      var t := LookupPage(upage);
      if t.None? {
        return false;
      }
      var e := MakePte(kpage, writable);
      PutEntry(PgNo(upage), t.value, j, e);
      ok := true;
    }

    /** Stores the entry e of user page u, which is entry j of the table at t. */
    method PutEntry(ghost u: nat, t: nat, j: nat, e: nat)
      requires Valid() && u < USER_PAGES && pd[u / ENTRIES] != 0
      requires t == FrameOf(pd[u / ENTRIES]) && j == u % ENTRIES && e < WORD
      modifies this`tables, this`view
      ensures Valid() && view == Remap(old(view), u, e) && TablePages(tables) == TablePages(old(tables))
    {
      SetView(pd, tables, slot, view, u, e);
      SetShape(pd, tables, slot, u / ENTRIES, j, e);
      SameTables(tables, Store(tables, t, j, e));
      tables, view := Store(tables, t, j, e), Remap(view, u, e);
    }

    /** lookup_page() without creating a table, and reading the entry that it finds; 0
        if there is no table. */
    method ReadEntry(va: nat) returns (e: nat)
      requires Valid() && IsUser(va)
      ensures e < WORD && e == Entry(pd, tables, PgNo(va)) && PgNo(va) < USER_PAGES
      ensures PgNo(va) in view <==> IsPresent(e)
      ensures PgNo(va) in view ==> view[PgNo(va)].frame == FrameOf(e)
    {
      var i, j := Indices(va);
      EntryBelow(pd, tables, slot, PgNo(va));
      ViewAt(pd, tables, view, PgNo(va));
      if pd[i] == 0 {
        return 0;
      }
      var t := GetFrame(pd[i]);
      assert TableOk(pd, slot, t, tables[t]);
      e := tables[t][j];
    }

    /** pagedir_get_page(): the frame and the offset in it, if the page is mapped. */
    method GetPage(uaddr: nat) returns (r: Option<nat>)
      requires Valid() && IsUser(uaddr)
      ensures r == if PgNo(uaddr) in view then Some(view[PgNo(uaddr)].frame + uaddr % PGSIZE) else None
    {
      var e := ReadEntry(uaddr);
      var present := TestPresent(e);
      if !present {
        return None;
      }
      var frame := GetFrame(e);
      var ofs := Offset(uaddr);
      r := Some(frame + ofs);
    }

    /** pagedir_clear_page(): unmaps the page, if it is mapped, and no other. */
    method ClearPage(upage: nat)
      requires Valid() && IsUser(upage) && upage % PGSIZE == 0
      modifies this`tables, this`view
      ensures Valid() && view == old(view) - {PgNo(upage)}
    {
      var i, j := Indices(upage);
      var e := ReadEntry(upage);
      var present := TestPresent(e);
      if present {
        PresentHasTable(pd, tables, PgNo(upage));
        ClearEntry(PgNo(upage), i, j, e);
      }
    }

    /** Clears the present bit of the entry e of user page u. */
    method ClearEntry(ghost u: nat, i: nat, j: nat, e: nat)
      requires Valid() && u < USER_PAGES && i == u / ENTRIES && j == u % ENTRIES && pd[i] != 0 && e < WORD
      modifies this`tables, this`view
      ensures Valid() && view == old(view) - {u}
    {
      var t := GetFrame(pd[i]);
      var x := MakeAbsent(e);
      PutEntry(u, t, j, x);
    }

    /** palloc_free_page() of a page that is not gone yet. */
    method FreePage(p: nat, done: seq<nat>, ghost gone: set<nat>, ghost k0: set<nat>, ghost u0: set<nat>)
        returns (freed: seq<nat>)
      requires pages.Valid() && Progress(done, gone, k0, u0, pages.kernel.used, pages.user.used)
      requires p !in gone && (p in k0 || p in u0)
      modifies pages.kernel, pages.kernel.usedMap.bits, pages.user, pages.user.usedMap.bits
      ensures pages.Valid() && Progress(freed, gone + {p}, k0, u0, pages.kernel.used, pages.user.used)
    {
      assert P.Pages(p, 1) == {p};
      ListPush(done, gone, p);
      pages.FreeMultiple(p, 1);
      freed := done + [p];
    }

    /** The inner loop of pagedir_destroy(): frees the frames that a table maps; it is
        for the user pages from first on. */
    method FreeFrames(table: seq<nat>, ghost first: nat, ghost i: nat, done: seq<nat>, ghost k0: set<nat>,
                      ghost u0: set<nat>)
        returns (freed: seq<nat>)
      requires pages.Valid() && ViewOk(pd, tables, view) && Exclusive(view, slot, pdPage, k0, u0)
      requires IsTableFor(pd, tables, table, first)
      requires Progress(done, Gone(view, slot, first, i), k0, u0, pages.kernel.used, pages.user.used)
      modifies pages.kernel, pages.kernel.usedMap.bits, pages.user, pages.user.usedMap.bits
      ensures pages.Valid()
      ensures Progress(freed, Gone(view, slot, first + ENTRIES, i), k0, u0, pages.kernel.used, pages.user.used)
    {
      freed := done;
      var j := 0;
      while j < ENTRIES
        invariant 0 <= j <= ENTRIES && pages.Valid()
        invariant Progress(freed, Gone(view, slot, first + j, i), k0, u0, pages.kernel.used, pages.user.used)
      {
        freed := FreeEntry(first + j, i, table[j], freed, k0, u0);
        j := j + 1;
      }
    }

    /** One turn of it: the frame of the entry e of user page u, if present. */
    method FreeEntry(ghost u: nat, ghost i: nat, e: nat, done: seq<nat>, ghost k0: set<nat>, ghost u0: set<nat>)
        returns (freed: seq<nat>)
      requires pages.Valid() && ViewOk(pd, tables, view) && Exclusive(view, slot, pdPage, k0, u0)
      requires u < USER_PAGES && e < WORD && e == Entry(pd, tables, u)
      requires Progress(done, Gone(view, slot, u, i), k0, u0, pages.kernel.used, pages.user.used)
      modifies pages.kernel, pages.kernel.usedMap.bits, pages.user, pages.user.usedMap.bits
      ensures pages.Valid()
      ensures Progress(freed, Gone(view, slot, u + 1, i), k0, u0, pages.kernel.used, pages.user.used)
    {
      ViewAt(pd, tables, view, u);
      GoneFrame(view, slot, pdPage, k0, u0, u, i);
      var present := TestPresent(e);
      if !present {
        return done;
      }
      var frame := GetFrame(e);
      freed := FreePage(PgNo(frame), done, Gone(view, slot, u, i), k0, u0);
    }

    /** pagedir_destroy(), when every frame is mapped once: frees each mapped frame, each
        table and the directory exactly once, and nothing else. */
    method Destroy() returns (freed: seq<nat>)
      requires Valid() && Exclusive(view, slot, pdPage, pages.kernel.used, pages.user.used)
      modifies pages.kernel, pages.kernel.usedMap.bits, pages.user, pages.user.usedMap.bits
      ensures pages.Valid()
      ensures var gone := Frames(view) + TablePages(tables) + {pdPage};
        && ListOf(freed, gone)
        && pages.kernel.used == old(pages.kernel.used) - gone && pages.user.used == old(pages.user.used) - gone
    {
      ghost var k0, u0 := pages.kernel.used, pages.user.used;
      freed := [];
      assert Gone(view, slot, 0, 0) == {};
      var i := 0;
      while i < USER_TABLES
        invariant 0 <= i <= USER_TABLES && pages.Valid()
        invariant Progress(freed, Gone(view, slot, i * ENTRIES, i), k0, u0, pages.kernel.used, pages.user.used)
      {
        freed := FreeTable(i, freed, k0, u0);
        i := i + 1;
      }
      AllGone(pd, tables, slot, view, pdPage, k0, u0);
      freed := FreePage(pdPage, freed, Frames(view) + TablePages(tables), k0, u0);
    }

    /** One turn of the outer loop. */
    method FreeTable(i: nat, done: seq<nat>, ghost k0: set<nat>, ghost u0: set<nat>) returns (freed: seq<nat>)
      requires pages.Valid() && Shape(pd, tables, slot) && ViewOk(pd, tables, view) && TablesHeld(tables, k0, pdPage)
      requires Exclusive(view, slot, pdPage, k0, u0) && i < USER_TABLES
      requires Progress(done, Gone(view, slot, i * ENTRIES, i), k0, u0, pages.kernel.used, pages.user.used)
      modifies pages.kernel, pages.kernel.usedMap.bits, pages.user, pages.user.usedMap.bits
      ensures pages.Valid()
      ensures Progress(freed, Gone(view, slot, (i + 1) * ENTRIES, i + 1), k0, u0, pages.kernel.used, pages.user.used)
    {
      if pd[i] == 0 {
        GoneNothing(pd, tables, slot, view, i);
        return done;
      }
      GoneTable(pd, tables, slot, view, pdPage, k0, u0, i);
      var t := GetFrame(pd[i]);
      TableEntries(pd, tables, slot, i);
      freed := FreeFrames(tables[t], i * ENTRIES, i, done, k0, u0);
      freed := FreePage(PgNo(t), freed, Gone(view, slot, (i + 1) * ENTRIES, i), k0, u0);
    }
  }

  // ---------------------------------------------------------------------
  // What pagedir_destroy() has freed
  // ---------------------------------------------------------------------

  ghost function Frames(view: map<nat, Mapping>): (s: set<nat>) {
    set u | u in view :: PgNo(view[u].frame)
  }

  ghost function TablePages(tables: map<nat, seq<nat>>): (s: set<nat>) {
    set t | t in tables :: PgNo(t)
  }

  lemma SameTables(tables: map<nat, seq<nat>>, tables': map<nat, seq<nat>>)
    requires tables'.Keys == tables.Keys
    ensures TablePages(tables') == TablePages(tables)
  {
    assert forall t :: t in tables <==> t in tables';
  }

  /** A page that was free and becomes a table is no one else's. */
  lemma OneMoreTable(tables: map<nat, seq<nat>>, used: set<nat>, used0: set<nat>, page: nat)
    requires page !in used0 && used == used0 + P.Pages(page, 1)
    ensures used - TablePages(tables[page * PGSIZE := NoEntries()]) == used0 - TablePages(tables)
  {
    var tables' := tables[page * PGSIZE := NoEntries()];
    assert P.Pages(page, 1) == {page} && PgNo(page * PGSIZE) == page;
    assert page * PGSIZE in tables';
    forall x ensures x in TablePages(tables') <==> x in TablePages(tables) || x == page {
      if x in TablePages(tables) {
        var t :| t in tables && PgNo(t) == x;
        assert t in tables';
      }
    }
  }

  /** The pages that are gone when the user pages below n and the tables below entry i
      are done. */
  ghost function Gone(view: map<nat, Mapping>, slot: map<nat, nat>, n: nat, i: nat): (s: set<nat>) {
    (set u | u in view && u < n :: PgNo(view[u].frame)) + (set t | t in slot && slot[t] < i :: PgNo(t))
  }

  /** The pages freed so far are those in gone, each once, and the pools lack them. */
  ghost predicate Progress(freed: seq<nat>, gone: set<nat>, k0: set<nat>, u0: set<nat>, k: set<nat>, u: set<nat>) {
    ListOf(freed, gone) && k == k0 - gone && u == u0 - gone
  }

  /** Frames are allocated and mapped once, and are neither tables nor the directory. */
  ghost predicate Exclusive(view: map<nat, Mapping>, slot: map<nat, nat>, pdPage: nat, k: set<nat>, u: set<nat>) {
    && (forall x {:trigger view[x]} :: x in view ==>
          PgNo(view[x].frame) != pdPage && (PgNo(view[x].frame) in k || PgNo(view[x].frame) in u))
    && (forall x, y {:trigger view[x], view[y]} :: x in view && y in view && x != y ==>
          PgNo(view[x].frame) != PgNo(view[y].frame))
    && (forall x, t {:trigger view[x], slot[t]} :: x in view && t in slot ==> PgNo(view[x].frame) != PgNo(t))
  }

  lemma GoneFrame(view: map<nat, Mapping>, slot: map<nat, nat>, pdPage: nat, k: set<nat>, used: set<nat>, u: nat,
                  i: nat)
    requires Exclusive(view, slot, pdPage, k, used)
    ensures Gone(view, slot, u + 1, i)
            == if u in view then Gone(view, slot, u, i) + {PgNo(view[u].frame)} else Gone(view, slot, u, i)
    ensures u in view ==> PgNo(view[u].frame) !in Gone(view, slot, u, i)
  {
  }

  /** Without a table there is nothing to free. */
  lemma GoneNothing(pd: seq<nat>, tables: map<nat, seq<nat>>, slot: map<nat, nat>, view: map<nat, Mapping>, i: nat)
    requires Shape(pd, tables, slot) && ViewOk(pd, tables, view) && i < USER_TABLES && pd[i] == 0
    ensures Gone(view, slot, (i + 1) * ENTRIES, i + 1) == Gone(view, slot, i * ENTRIES, i)
  {
    forall u | u in view ensures !(i * ENTRIES <= u < (i + 1) * ENTRIES) {
      PresentHasTable(pd, tables, u);
    }
    forall t | t in slot ensures slot[t] != i {
      assert TableOk(pd, slot, t, tables[t]);
    }
  }

  lemma GoneTable(pd: seq<nat>, tables: map<nat, seq<nat>>, slot: map<nat, nat>, view: map<nat, Mapping>, pdPage: nat,
                  k: set<nat>, used: set<nat>, i: nat)
    requires Shape(pd, tables, slot) && Exclusive(view, slot, pdPage, k, used) && TablesHeld(tables, k, pdPage)
    requires i < USER_TABLES && pd[i] != 0
    ensures var p, n := PgNo(FrameOf(pd[i])), (i + 1) * ENTRIES;
      Gone(view, slot, n, i + 1) == Gone(view, slot, n, i) + {p} && p !in Gone(view, slot, n, i) && p in k
  {
    var t, n := FrameOf(pd[i]), (i + 1) * ENTRIES;
    forall t' | t' in slot ensures slot[t'] == i <==> t' == t {
      assert TableOk(pd, slot, t', tables[t']);
    }
    forall t' | t' in slot && slot[t'] < i ensures PgNo(t') != PgNo(t) {
      assert TableOk(pd, slot, t', tables[t']) && TableOk(pd, slot, t, tables[t]);
    }
  }

  lemma AllGone(pd: seq<nat>, tables: map<nat, seq<nat>>, slot: map<nat, nat>, view: map<nat, Mapping>, pdPage: nat,
                k: set<nat>, used: set<nat>)
    requires Shape(pd, tables, slot) && ViewOk(pd, tables, view) && Exclusive(view, slot, pdPage, k, used)
    requires TablesHeld(tables, k, pdPage)
    ensures Gone(view, slot, USER_TABLES * ENTRIES, USER_TABLES) == Frames(view) + TablePages(tables)
    ensures pdPage !in Frames(view) + TablePages(tables) && pdPage in k
  {
    forall t | t in tables ensures slot[t] < USER_TABLES {
      assert TableOk(pd, slot, t, tables[t]);
    }
  }

  /** The address of a page that is not a table yet. */
  lemma NewAddress(tables: map<nat, seq<nat>>, used: set<nat>, pdPage: nat, page: nat)
    requires TablesHeld(tables, used - {page}, pdPage) && page in used
    requires USER_PAGES <= page && (page + 1) * PGSIZE <= WORD
    ensures var t := page * PGSIZE;
      IsFrame(t) && t !in tables && TablesHeld(tables[t := NoEntries()], used, pdPage)
  {
    assert PgNo(page * PGSIZE) == page;
  }

  lemma ViewAt(pd: seq<nat>, tables: map<nat, seq<nat>>, view: map<nat, Mapping>, u: nat)
    requires ViewOk(pd, tables, view) && u < USER_PAGES
    ensures var e := Entry(pd, tables, u);
      (u in view <==> IsPresent(e)) && (u in view ==> view[u].frame == FrameOf(e))
  {
  }

  lemma PresentHasTable(pd: seq<nat>, tables: map<nat, seq<nat>>, u: nat)
    requires |pd| == ENTRIES && u < USER_PAGES && IsPresent(Entry(pd, tables, u))
    ensures pd[u / ENTRIES] != 0
  {
  }

  /** The pages of the tables and of the directory are allocated, and are different. */
  ghost predicate TablesHeld(tables: map<nat, seq<nat>>, used: set<nat>, pdPage: nat) {
    pdPage in used && forall t {:trigger t in tables} :: t in tables ==> PgNo(t) in used && PgNo(t) != pdPage
  }
}
