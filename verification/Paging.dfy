/** Two-level page tables (32-bit paging, section 4.3 of Intel SDM Vol. 3A), the macros of
    memory.h that index them, and the recursive self-map that memory.c stores through.

    Shifts and masks of contiguous bits are written as division and remainder.
 */
module Paging {
  import opened Words

  const PAGES: int := 0x10_0000
  const TABLE_SPAN: int := 0x40_0000
  const V_KERNEL_PAGE_TABLE_1: word := 0xF000_0000
  const SELF: int := 0x3C0
  const RW_PRESENT: word := 3

  function Virt2Dir(a: word): (d: int)
    ensures 0 <= d < 1024
  {
    a / TABLE_SPAN
  }

  function Virt2Page(a: word): (p: int)
    ensures 0 <= p < 1024
  {
    a / PAGE_SIZE % 1024
  }

  function Virt2Map(a: word): word {
    Wrap(a / TABLE_SPAN * PAGE_SIZE + V_KERNEL_PAGE_TABLE_1)
  }

  /** makePDEphys and makePTEphys. */
  function MakeEntry(phys: word, flags: word): word {
    phys / PAGE_SIZE * PAGE_SIZE + flags % PAGE_SIZE
  }

  predicate IsPresent(e: word) {
    e % 2 == 1
  }

  function Frame(e: word): word {
    e / PAGE_SIZE * PAGE_SIZE
  }

  /** The directory entry for va, and where its page-table entry lives. */
  function Pde(mem: Mem, pd: int, va: word): word {
    Load(mem, pd + 4 * Virt2Dir(va))
  }

  function PteAddress(mem: Mem, pd: int, va: word): int {
    Frame(Pde(mem, pd, va)) + 4 * Virt2Page(va)
  }

  /** What the processor does with a linear address. */
  function Walk(mem: Mem, pd: int, va: word): Option<word> {
    if !IsPresent(Pde(mem, pd, va)) then None else
    var pte := Load(mem, PteAddress(mem, pd, va));
    if !IsPresent(pte) then None else Some(Frame(pte) + va % PAGE_SIZE)
  }

  /** The directory is one of its own tables, and no two entries share a table. */
  ghost predicate SelfMapped(mem: Mem, pd: int) {
    && 0 <= pd < WORD && pd % PAGE_SIZE == 0
    && IsPresent(Load(mem, pd + 4 * SELF)) && Frame(Load(mem, pd + 4 * SELF)) == pd
    && forall d, e :: 0 <= d < e < 1024 && IsPresent(Load(mem, pd + 4 * d)) && IsPresent(Load(mem, pd + 4 * e)) ==>
         Frame(Load(mem, pd + 4 * d)) != Frame(Load(mem, pd + 4 * e))
  }

  /** Mapping virt is a store within a table other than the directory. */
  ghost predicate Mappable(mem: Mem, pd: int, virt: word) {
    IsPresent(Pde(mem, pd, virt)) && Virt2Dir(virt) != SELF
  }

  /** The linear address map_page_helper writes to. */
  function EntryAddress(virt: word): (a: word)
    ensures Virt2Dir(a) == SELF && Virt2Page(a) == Virt2Dir(virt) && a % PAGE_SIZE == 4 * Virt2Page(virt)
  {
    MapAddress(Virt2Dir(virt), Virt2Page(virt));
    Virt2Map(virt) + 4 * Virt2Page(virt)
  }

  lemma MapAddress(d: int, p: int)
    requires 0 <= d < 1024 && 0 <= p < 1024
    ensures var a := d * PAGE_SIZE + V_KERNEL_PAGE_TABLE_1 + 4 * p;
      a < WORD && a / TABLE_SPAN == SELF && a / PAGE_SIZE % 1024 == d && a % PAGE_SIZE == 4 * p
  {
    var a := d * PAGE_SIZE + V_KERNEL_PAGE_TABLE_1 + 4 * p;
    assert a / PAGE_SIZE == d + V_KERNEL_PAGE_TABLE_1 / PAGE_SIZE;
  }

  /** Through the self-map, the linear address of a page-table entry reaches that entry. */
  lemma SelfMapReaches(mem: Mem, pd: int, virt: word)
    requires SelfMapped(mem, pd) && IsPresent(Pde(mem, pd, virt))
    ensures Walk(mem, pd, EntryAddress(virt)) == Some(PteAddress(mem, pd, virt))
  {
  }

  /** map_page_helper when the table is present: a store through the self-map. */
  function MapPage(mem: Mem, pd: int, virt: word, phys: word, flags: word): Mem {
    match Walk(mem, pd, EntryAddress(virt))
    case Some(a) => mem[a := MakeEntry(phys, flags)]
    case None => mem
  }

  predicate SamePage(a: word, b: word) {
    Virt2Dir(a) == Virt2Dir(b) && Virt2Page(a) == Virt2Page(b)
  }

  /** The store hits neither the directory nor any other page's entry. */
  lemma StoreMisses(mem: Mem, pd: int, virt: word, va: word)
    requires SelfMapped(mem, pd) && Mappable(mem, pd, virt)
    ensures forall d :: 0 <= d < 1024 ==> PteAddress(mem, pd, virt) != pd + 4 * d
    ensures IsPresent(Pde(mem, pd, va)) && !SamePage(va, virt) ==> PteAddress(mem, pd, virt) != PteAddress(mem, pd, va)
  {
    hide Frame, IsPresent, Virt2Dir, Virt2Page;
    var (d, p) := (Virt2Dir(virt), Virt2Page(virt));
    assert Frame(Pde(mem, pd, virt)) != pd;
    FrameAligned(Pde(mem, pd, virt));
    forall e | 0 <= e < 1024 ensures PteAddress(mem, pd, virt) != pd + 4 * e {
      FramesApart(Frame(Pde(mem, pd, virt)), pd, p, e);
    }
    FrameAligned(Pde(mem, pd, va));
    if IsPresent(Pde(mem, pd, va)) && Virt2Dir(va) != d {
      assert Frame(Pde(mem, pd, va)) != Frame(Pde(mem, pd, virt));
      FramesApart(Frame(Pde(mem, pd, virt)), Frame(Pde(mem, pd, va)), p, Virt2Page(va));
    }
  }

  lemma FrameAligned(e: word)
    ensures Frame(e) % PAGE_SIZE == 0
  {
  }

  lemma FramesApart(f: int, g: int, p: int, q: int)
    requires 0 <= p < 1024 && 0 <= q < 1024
    ensures f % PAGE_SIZE == 0 && g % PAGE_SIZE == 0 && f != g ==> f + 4 * p != g + 4 * q
  {
  }

  lemma EntryFields(phys: word, flags: word)
    ensures Frame(MakeEntry(phys, flags)) == Frame(phys) && (IsPresent(MakeEntry(phys, flags)) <==> IsPresent(flags))
    ensures MakeEntry(phys, flags) % 0x1000 == flags % 0x1000
    ensures forall b: Access :: Allows(MakeEntry(phys, flags), b) <==> Allows(flags, b)
  {
    var (k, f) := (phys as int / PAGE_SIZE, flags as int % PAGE_SIZE);
    FieldsOf(k, f);
    assert MakeEntry(phys, flags) == k * PAGE_SIZE + f;
    LowTwelve(k, f);
    hide MakeEntry, Allows;
    LowBits(MakeEntry(phys, flags));
    LowBits(flags);
  }

  lemma FieldsOf(k: int, f: int)
    requires 0 <= f < PAGE_SIZE
    ensures (k * PAGE_SIZE + f) / PAGE_SIZE == k && (k * PAGE_SIZE + f) % 2 == f % 2
  {
  }

  lemma LowTwelve(k: int, f: int)
    requires 0 <= f < PAGE_SIZE
    ensures (k * PAGE_SIZE + f) % PAGE_SIZE == f
  {
    FieldsOf(k, f);
  }

  /** Equal directories walk alike up to the table. */
  lemma SameDirectory(mem: Mem, mem': Mem, pd: int)
    requires SelfMapped(mem, pd) && forall d :: 0 <= d < 1024 ==> Load(mem', pd + 4 * d) == Load(mem, pd + 4 * d)
    ensures SelfMapped(mem', pd)
    ensures forall va: word :: Pde(mem', pd, va) == Pde(mem, pd, va)
  {
  }

  /** After mapping virt to phys, the page of virt is at phys and every other page is where
      it was; the directory is untouched. */
  lemma MapPageMaps(mem: Mem, pd: int, virt: word, phys: word, flags: word, va: word)
    requires SelfMapped(mem, pd) && Mappable(mem, pd, virt)
    ensures var mem' := MapPage(mem, pd, virt, phys, flags);
      && SelfMapped(mem', pd) && Pde(mem', pd, va) == Pde(mem, pd, va)
      && Walk(mem', pd, va) == if SamePage(va, virt)
                               then if IsPresent(flags) then Some(Frame(phys) + va % PAGE_SIZE) else None
                               else Walk(mem, pd, va)
  {
    hide EntryAddress, MakeEntry, Frame, IsPresent, Virt2Dir, Virt2Page, SelfMapped;
    var mem' := MapPage(mem, pd, virt, phys, flags);
    SelfMapReaches(mem, pd, virt);
    StoreMisses(mem, pd, virt, va);
    SameDirectory(mem, mem', pd);
    EntryFields(phys, flags);
  }

  // ----- access rights -----

  /** Bits 1 and 2 of an entry (section 4.6 of Intel SDM Vol. 3A). */
  datatype Access = Write | User

  predicate Allows(e: word, b: Access) {
    if b.Write? then e / 2 % 2 == 1 else e / 4 % 2 == 1
  }

  /** The processor's rule: a right to a mapped address needs the directory entry's bit and the
      table entry's. */
  predicate Grants(mem: Mem, pd: int, va: word, b: Access) {
    Walk(mem, pd, va).Some? && Allows(Pde(mem, pd, va), b) && Allows(Load(mem, PteAddress(mem, pd, va)), b)
  }

  /** The rights of an entry are in its low twelve bits. */
  lemma LowBits(e: word)
    ensures forall b: Access :: Allows(e, b) <==> Allows(e % 0x1000, b)
  {
    var (k, f) := (e as int / 0x1000, e as int % 0x1000);
    assert e == k * 0x1000 + f;
    Halves(k * 0x800, f);
    Halves(k * 0x400, f / 2);
    Quarter(k * 0x400, f);
    Halves(k * 0x200, f / 4);
  }

  lemma Halves(x: int, f: int)
    ensures (2 * x + f) / 2 == x + f / 2 && (2 * x + f) % 2 == f % 2
  {
  }

  lemma Quarter(x: int, f: int)
    ensures (4 * x + f) / 4 == x + f / 4
  {
  }

  lemma MappableIs(mem: Mem, pd: int, virt: word)
    requires Mappable(mem, pd, virt)
    ensures IsPresent(Pde(mem, pd, virt))
  {
  }

  /** The entry map_page_helper stores, where the self-map finds it: the frame of phys and the
      low twelve bits of flags.  No other dword of memory changes. */
  lemma EntryStored(mem: Mem, pd: int, virt: word, phys: word, flags: word)
    requires SelfMapped(mem, pd) && Mappable(mem, pd, virt)
    ensures var (mem', a) := (MapPage(mem, pd, virt, phys, flags), PteAddress(mem, pd, virt));
      && Load(mem', a) as int == phys / 0x1000 * 0x1000 + flags % 0x1000
      && (forall x :: x != a ==> Load(mem', x) == Load(mem, x))
      && PteAddress(mem', pd, virt) == a && Walk(mem', pd, EntryAddress(virt)) == Some(a)
  {
    hide EntryAddress, SelfMapped, Mappable;
    MappableIs(mem, pd, virt);
    SelfMapReaches(mem, pd, virt);
    StoreMisses(mem, pd, virt, virt);
    var mem' := MapPage(mem, pd, virt, phys, flags);
    SameDirectory(mem, mem', pd);
    SelfMapReaches(mem', pd, virt);
  }

  /** After mapping a page it has the rights in flags that the directory allows, and every other
      page has the rights it had. */
  lemma MapPageGrants(mem: Mem, pd: int, virt: word, phys: word, flags: word, va: word, b: Access)
    requires SelfMapped(mem, pd) && Mappable(mem, pd, virt)
    ensures Grants(MapPage(mem, pd, virt, phys, flags), pd, va, b) <==>
      if SamePage(va, virt) then IsPresent(flags) && Allows(Pde(mem, pd, va), b) && Allows(flags, b) else Grants(mem, pd, va, b)
  {
    hide EntryAddress, MakeEntry, Frame, IsPresent, Virt2Dir, Virt2Page, SelfMapped, Allows;
    var mem' := MapPage(mem, pd, virt, phys, flags);
    SelfMapReaches(mem, pd, virt);
    StoreMisses(mem, pd, virt, va);
    SameDirectory(mem, mem', pd);
    EntryFields(phys, flags);
  }

  /** Inside the self-map region the entry stored is a directory entry: there, mapping one
      page would replace a whole table, which is why Mappable excludes it. */
  lemma SelfRegionIsDirectory(mem: Mem, pd: int, virt: word)
    requires SelfMapped(mem, pd) && Virt2Dir(virt) == SELF
    ensures Walk(mem, pd, EntryAddress(virt)) == Some(pd + 4 * Virt2Page(virt))
  {
    SelfMapReaches(mem, pd, virt);
  }

  // ----- ranges -----

  /** The address k pages further on, around the end of the address space. */
  function PageAfter(a: word, k: nat): word {
    Wrap(a + k * PAGE_SIZE)
  }

  /** map_page_range over whole pages. */
  function MapPages(mem: Mem, pd: int, virt: word, phys: word, n: nat, flags: word): Mem {
    if n == 0 then mem
    else MapPage(MapPages(mem, pd, virt, phys, n - 1, flags), pd, PageAfter(virt, n - 1), PageAfter(phys, n - 1), flags)
  }

  /** How many pages va lies after virt's, around the end of the address space. */
  function PagesPast(virt: word, va: word): nat {
    Wrap(va - Frame(virt)) / PAGE_SIZE
  }

  /** Page numbers run around as the addresses do. */
  lemma PageAfterNumber(a: word, k: nat)
    requires k < PAGES
    ensures var q := a / PAGE_SIZE + k; PageAfter(a, k) / PAGE_SIZE == if q < PAGES then q else q - PAGES
  {
    var (q, r) := (a as int / PAGE_SIZE + k, a as int % PAGE_SIZE);
    assert a + k * PAGE_SIZE == q * PAGE_SIZE + r;
    if q < PAGES {
      QuotientOf(q, r);
    } else {
      assert PageAfter(a, k) == (q - PAGES) * PAGE_SIZE + r;
      QuotientOf(q - PAGES, r);
    }
  }

  lemma QuotientOf(q: int, r: int)
    requires 0 <= r < PAGE_SIZE
    ensures (q * PAGE_SIZE + r) / PAGE_SIZE == q
  {
  }

  lemma PagesPastNumber(virt: word, va: word)
    ensures var (b, v) := (virt / PAGE_SIZE, va / PAGE_SIZE);
      PagesPast(virt, va) == if v >= b then v - b else v - b + PAGES
  {
    var (b, v, r) := (virt as int / PAGE_SIZE, va as int / PAGE_SIZE, va as int % PAGE_SIZE);
    assert va - Frame(virt) == (v - b) * PAGE_SIZE + r;
    if v >= b {
      QuotientOf(v - b, r);
    } else {
      assert Wrap(va - Frame(virt)) == (v - b + PAGES) * PAGE_SIZE + r;
      QuotientOf(v - b + PAGES, r);
    }
  }

  lemma PageAt(virt: word, k: nat, va: word)
    requires k < PAGES
    ensures SamePage(va, PageAfter(virt, k)) <==> PagesPast(virt, va) == k
  {
    hide PageAfter, PagesPast;
    PageAfterNumber(virt, k);
    PagesPastNumber(virt, va);
    PageNumber(va);
    PageNumber(PageAfter(virt, k));
    assert SamePage(va, PageAfter(virt, k)) <==> va / PAGE_SIZE == PageAfter(virt, k) / PAGE_SIZE;
  }

  lemma PageOf(virt: word, k: nat, va: word)
    requires virt + k * PAGE_SIZE < WORD
    ensures SamePage(va, virt + k * PAGE_SIZE) <==> Frame(virt) + k * PAGE_SIZE <= va < Frame(virt) + (k + 1) * PAGE_SIZE
  {
    var b := virt + k * PAGE_SIZE;
    FrameOffset(virt, k);
    PageNumber(va);
    PageNumber(b);
    assert SamePage(va, b) <==> va / PAGE_SIZE == b / PAGE_SIZE;
  }

  lemma PageNumber(a: word)
    ensures a / PAGE_SIZE == 1024 * Virt2Dir(a) + Virt2Page(a)
  {
  }

  lemma FrameOffset(phys: word, k: nat)
    requires phys + k * PAGE_SIZE < WORD
    ensures Frame(phys + k * PAGE_SIZE) == Frame(phys) + k * PAGE_SIZE
  {
  }

  /** A range of pages, from the one that holds virt and around the end of the address space:
      inside it every address goes to its place, or nowhere without the present flag, and
      outside nothing moves. */
  lemma {:induction false} MapPagesMaps(mem: Mem, pd: int, virt: word, phys: word, n: nat, flags: word, va: word)
    requires SelfMapped(mem, pd) && n <= PAGES
    requires forall k: nat :: k < n ==> Mappable(mem, pd, PageAfter(virt, k))
    ensures var mem' := MapPages(mem, pd, virt, phys, n, flags);
      && SelfMapped(mem', pd) && (forall a: word :: Pde(mem', pd, a) == Pde(mem, pd, a))
      && Walk(mem', pd, va) ==
        if PagesPast(virt, va) >= n then Walk(mem, pd, va)
        else if IsPresent(flags) then Some(Frame(PageAfter(phys, PagesPast(virt, va))) + va % PAGE_SIZE) else None
  {
    hide SelfMapped, Walk, MapPage, SamePage, Frame, IsPresent, Pde, PageAfter, PagesPast;
    if n > 0 {
      MapPagesMaps(mem, pd, virt, phys, n - 1, flags, va);
      var (mid, b, to) := (MapPages(mem, pd, virt, phys, n - 1, flags), PageAfter(virt, n - 1), PageAfter(phys, n - 1));
      assert Mappable(mem, pd, b);
      MapPageMaps(mid, pd, b, to, flags, va);
      forall a: word ensures Pde(MapPage(mid, pd, b, to, flags), pd, a) == Pde(mem, pd, a) {
        MapPageMaps(mid, pd, b, to, flags, a);
      }
      PageAt(virt, n - 1, va);
    }
  }

  /** Over a range: its pages have the rights in flags that the directory allows, every other page
      those it had. */
  lemma {:induction false} MapPagesGrants(mem: Mem, pd: int, virt: word, phys: word, n: nat, flags: word, va: word, b: Access)
    requires SelfMapped(mem, pd) && n <= PAGES
    requires forall k: nat :: k < n ==> Mappable(mem, pd, PageAfter(virt, k))
    ensures Grants(MapPages(mem, pd, virt, phys, n, flags), pd, va, b) <==>
      if PagesPast(virt, va) < n then IsPresent(flags) && Allows(Pde(mem, pd, va), b) && Allows(flags, b) else Grants(mem, pd, va, b)
  {
    hide SelfMapped, Walk, MapPage, SamePage, IsPresent, Pde, PageAfter, PagesPast, Grants, Allows;
    if n > 0 {
      MapPagesGrants(mem, pd, virt, phys, n - 1, flags, va, b);
      MapPagesMaps(mem, pd, virt, phys, n - 1, flags, va);
      var (mid, page, to) := (MapPages(mem, pd, virt, phys, n - 1, flags), PageAfter(virt, n - 1), PageAfter(phys, n - 1));
      assert Mappable(mem, pd, page);
      MapPageGrants(mid, pd, page, to, flags, va, b);
      PageAt(virt, n - 1, va);
    }
  }

  class Pager {
    var mem: Mem
    const pd: word

    constructor (memory: Mem, directory: word)
      ensures mem == memory && pd == directory
    {
      mem := memory;
      pd := directory;
    }

    /** A dword store to a mapped linear address. */
    method StoreVirtual(a: word, v: word)
      requires Walk(mem, pd, a).Some?
      modifies this
      ensures mem == old(mem)[Walk(old(mem), pd, a).value := v]
    {
      mem := mem[Walk(mem, pd, a).value := v];
    }

    /** map_page_helper when the directory has a table for virt. */
    method MapPageHelper(virt: word, phys: word, flags: word)
      requires SelfMapped(mem, pd) && IsPresent(Pde(mem, pd, virt))
      modifies this
      ensures mem == MapPage(old(mem), pd, virt, phys, flags)
    {
      var pageTable := Virt2Map(virt);
      SelfMapReaches(mem, pd, virt);
      var entry := EntryAddress(virt);
      assert entry == pageTable + 4 * Virt2Page(virt);
      StoreVirtual(entry, MakeEntry(phys, flags));
    }

    /** map_page_range: nothing happens unless the size is a number of whole pages. */
    method MapPageRange(virt: word, phys: word, size: word, flags: word)
      requires SelfMapped(mem, pd)
      requires forall k: nat :: k < size / PAGE_SIZE ==> Mappable(mem, pd, PageAfter(virt, k))
      modifies this
      ensures size % PAGE_SIZE != 0 ==> mem == old(mem)
      ensures size % PAGE_SIZE == 0 ==> mem == MapPages(old(mem), pd, virt, phys, size / PAGE_SIZE, flags)
    {
      hide SelfMapped, MapPage, Walk, IsPresent, Pde, Virt2Dir;
      var numPages := size / PAGE_SIZE;
      if size % PAGE_SIZE != 0 {
        return;
      }
      var currentPage := 0;
      while currentPage < numPages
        invariant 0 <= currentPage <= numPages
        invariant mem == MapPages(old(mem), pd, virt, phys, currentPage, flags)
      {
        MapPagesMaps(old(mem), pd, virt, phys, currentPage, flags, virt);
        assert Mappable(old(mem), pd, PageAfter(virt, currentPage));
        MapPageHelper(Wrap(virt + currentPage * PAGE_SIZE), Wrap(phys + currentPage * PAGE_SIZE), flags);
        currentPage := currentPage + 1;
      }
    }
  }
}
