/** Addresses and page table entries: src/threads/vaddr.h and src/threads/pte.h.
    Addresses are 32-bit. */
module Paging {
  import opened Bits
  import opened Words

  const PHYS_BASE: nat := 0xC000_0000
  const PTE_P: nat := 1
  const PTE_W: nat := 2
  const PTE_U: nat := 4
  const PTE_ADDR: nat := 0xFFFF_F000
  const ENTRIES: nat := 1024

  // ---------------------------------------------------------------------
  // Addresses
  // ---------------------------------------------------------------------

  function PgOfs(va: nat): (r: nat) {
    And(va, 0xFFF)
  }

  function PgNo(va: nat): (r: nat) {
    va / 0x1000
  }

  function PgRoundDown(va: nat): (r: nat) {
    And(va, PTE_ADDR)
  }

  function PgRoundUp(va: nat): (r: nat) {
    And((va + PGSIZE - 1) % WORD, PTE_ADDR)
  }

  function PtNo(va: nat): (r: nat) {
    And(va, 0x3F_F000) / 0x1000
  }

  function PdNo(va: nat): (r: nat) {
    va / 0x40_0000
  }

  predicate IsUser(va: nat) {
    va < PHYS_BASE
  }

  /** vtop() of a kernel address */
  function VtoP(va: nat): (r: nat)
    requires PHYS_BASE <= va < WORD
  {
    va - PHYS_BASE
  }

  /** ptov() of a physical address below PHYS_BASE */
  function PtoV(pa: nat): (r: nat) {
    pa + PHYS_BASE
  }

  /** Masks are remainders. */
  lemma PageParts(va: nat)
    requires va < WORD
    ensures PgOfs(va) == va % PGSIZE && PgRoundDown(va) == va - va % PGSIZE == PgNo(va) * PGSIZE
  {
    Pow2Of32();
    AndLowMask(va, 12);
    AndHighMask(va, 12, 32);
  }

  /** Rounding up gives the next page boundary, unless it wraps around to zero. */
  lemma RoundUp(va: nat)
    requires va < WORD
    ensures va + PGSIZE - 1 < WORD ==> PgRoundUp(va) % PGSIZE == 0 && va <= PgRoundUp(va) < va + PGSIZE
    ensures va + PGSIZE - 1 >= WORD ==> PgRoundUp(va) == 0
  {
    var y := va + PGSIZE - 1;
    var x := if y < WORD then y else y - WORD;
    ModUnique(y, WORD, if y < WORD then 0 else 1, x);
    PageParts(x);
  }

  /** The two indices split the page number, and determine it. */
  lemma TableIndex(va: nat)
    requires va < WORD
    ensures PdNo(va) == PgNo(va) / ENTRIES < ENTRIES && PtNo(va) == PgNo(va) % ENTRIES
  {
    MiddleBits(va);
  }

  lemma MiddleBits(va: nat)
    ensures And(va, 0x3F_F000) == 0x1000 * ((va / 0x1000) % 0x400)
  {
    Pow2Of32();
    AndShift12(va, 0x3FF);
    AndLowMask(va / 0x1000, 10);
  }

  /** A virtual address is its indices and its offset. */
  lemma SameIndices(a: nat, b: nat)
    requires a < WORD && b < WORD
    ensures PdNo(a) == PdNo(b) && PtNo(a) == PtNo(b) <==> PgNo(a) == PgNo(b)
  {
    TableIndex(a);
    TableIndex(b);
  }

  // ---------------------------------------------------------------------
  // Entries
  // ---------------------------------------------------------------------

  /** A page-aligned kernel address whose physical address is below PHYS_BASE. */
  predicate IsFrame(page: nat) {
    PHYS_BASE <= page < WORD && page % PGSIZE == 0
  }

  function PdeCreate(pt: nat): (pde: nat)
    requires IsFrame(pt)
  {
    Or(Or(Or(VtoP(pt), PTE_U), PTE_P), PTE_W)
  }

  function PdeGetPt(pde: nat): (pt: nat) {
    PtoV(And(pde, PTE_ADDR))
  }

  function PteCreateKernel(page: nat, writable: bool): (pte: nat)
    requires IsFrame(page)
  {
    Or(Or(VtoP(page), PTE_P), if writable then PTE_W else 0)
  }

  function PteCreateUser(page: nat, writable: bool): (pte: nat)
    requires IsFrame(page)
  {
    Or(PteCreateKernel(page, writable), PTE_U)
  }

  function PteGetPage(pte: nat): (page: nat) {
    PtoV(And(pte, PTE_ADDR))
  }

  predicate Present(entry: nat) {
    And(entry, PTE_P) != 0
  }

  predicate Writable(entry: nat) {
    And(entry, PTE_W) != 0
  }

  lemma FlagsAdd(x: nat, f: nat)
    requires x % PGSIZE == 0 && f < 8
    ensures Or(x, f) == x + f
  {
    Pow2Of32();
    OrIsAdd(x, f, 12);
  }

  lemma FlagBits()
    ensures Or(Or(4, 1), 2) == 7 && Or(Or(1, 2), 4) == 7 && Or(Or(1, 0), 4) == 5
  {
  }

  lemma OrFlags(x: nat, a: nat, b: nat, c: nat, f: nat)
    requires x % PGSIZE == 0 && Or(Or(a, b), c) == f < 8
    ensures Or(Or(Or(x, a), b), c) == x + f
  {
    OrThree(x, a, b, c);
    FlagsAdd(x, f);
  }

  /** What the entries are as numbers. */
  lemma EntryValue(page: nat, writable: bool)
    requires IsFrame(page)
    ensures PdeCreate(page) == VtoP(page) + 7
    ensures PteCreateUser(page, writable) == VtoP(page) + (if writable then 7 else 5)
  {
    FlagBits();
    OrFlags(VtoP(page), PTE_U, PTE_P, PTE_W, 7);
    OrFlags(VtoP(page), PTE_P, if writable then PTE_W else 0, PTE_U, if writable then 7 else 5);
  }

  lemma EntryFlags(e: nat)
    ensures Present(e) <==> e % 2 == 1
    ensures Writable(e) <==> (e / 2) % 2 == 1
  {
    AndPow2(e, 0);
    AndPow2(e, 1);
    assert Pow2(1) == 2 && Bit(e, 1) == Bit(e / 2, 0);
  }

  lemma EntryPage(e: nat)
    requires e < WORD
    ensures PteGetPage(e) == PdeGetPt(e) == PHYS_BASE + (e - e % PGSIZE)
  {
    Pow2Of32();
    AndHighMask(e, 12, 32);
  }

  /** A page table entry or a page directory entry is its page's address and flags. */
  lemma EntryIs(page: nat, writable: bool, e: nat)
    requires IsFrame(page) && (e == PteCreateUser(page, writable) || (writable && e == PdeCreate(page)))
    ensures e == VtoP(page) + (if writable then 7 else 5) < WORD
  {
    EntryValue(page, writable);
  }

  /** Clearing the present bit: &= ~PTE_P. */
  lemma ClearPresent(e: nat)
    requires e < WORD
    ensures And(e, Not(PTE_P)) < WORD && !Present(And(e, Not(PTE_P)))
    ensures And(e, Not(PTE_P)) / 2 == e / 2
  {
    Pow2Of32();
    AndHighMask(e, 1, 32);
    assert Pow2(1) == 2;
    EntryFlags(And(e, Not(PTE_P)));
  }
}
