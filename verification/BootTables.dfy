/** init_virt_mem's page tables, and init_heap: how they translate every address. */
module BootTables {
  import opened Words
  import opened Paging

  const P_KERNEL_PAGE_DIRECTORY: word := 0x4000
  const P_PAGE_TABLE_FIRST_4MB: word := 0x5000
  const P_PAGE_TABLE_KERNEL_1: word := 0x6000
  const P_PAGE_TABLE_HEAP_1: word := 0x7000
  const KERNEL_PHYS_ADDR: word := 0x10_0000
  const KERNEL_VIRT_ADDR: word := 0xC000_0000
  const V_KERNEL_HEAP_ADDR: word := 0xD000_0000
  const RW_ABSENT: word := 2

  /** The next page boundary. */
  function RoundUp(a: nat): nat {
    (a + PAGE_SIZE - 1) / PAGE_SIZE * PAGE_SIZE
  }

  /** Entry i of a table that maps consecutive pages from first while they lie below top. */
  function Linear(first: word, top: word, i: nat): word
    requires i < 1024 && first + 1024 * PAGE_SIZE <= WORD
  {
    if first + i * PAGE_SIZE < top then MakeEntry(first + i * PAGE_SIZE, RW_PRESENT) else MakeEntry(0, RW_ABSENT)
  }

  /** Entry i of the directory. */
  function Directory(i: int): word {
    if i == 0 then MakeEntry(P_PAGE_TABLE_FIRST_4MB, RW_PRESENT)
    else if i == 0x300 then MakeEntry(P_PAGE_TABLE_KERNEL_1, RW_PRESENT)
    else MakeEntry(0, RW_ABSENT)
  }

  ghost predicate Booted(mem: Mem, top: word)
  {
    && (forall i :: 0 <= i < 1024 ==> Load(mem, P_PAGE_TABLE_FIRST_4MB + 4 * i) == Linear(0, top, i))
    && (forall i :: 0 <= i < 1024 ==> Load(mem, P_PAGE_TABLE_KERNEL_1 + 4 * i) == Linear(KERNEL_PHYS_ADDR, top, i))
    && (forall i :: 0 <= i < 1024 ==> Load(mem, P_KERNEL_PAGE_DIRECTORY + 4 * i) == Directory(i))
  }

  class Boot {
    var mem: Mem
    var numKernelTables: int

    constructor (memory: Mem)
      ensures mem == memory
    {
      mem := memory;
      numKernelTables := 0;
    }

    /** One table: present entries up to top, then absent ones to the end of the table. */
    method FillTable(table: word, first: word, top: word) returns (present: nat)
      requires table % PAGE_SIZE == 0 && table < 0x10_0000
      requires first % PAGE_SIZE == 0 && first < top <= first + TABLE_SPAN && first + TABLE_SPAN < WORD
      modifies this`mem
      ensures 0 < present <= 1024 && first + (present - 1) * PAGE_SIZE < top <= first + present * PAGE_SIZE
      ensures forall i :: 0 <= i < 1024 ==> Load(mem, table + 4 * i) == Linear(first, top, i)
      ensures forall a :: !(table <= a < table + PAGE_SIZE) ==> Load(mem, a) == Load(old(mem), a)
    {
      var i := 0;
      var address: int := first;
      while address < top
        invariant 0 <= i <= 1024 && address == first + i * PAGE_SIZE && (i > 0 ==> address - PAGE_SIZE < top)
        invariant forall j :: 0 <= j < i ==> Load(mem, table + 4 * j) == Linear(first, top, j)
        invariant forall a :: !(table <= a < table + PAGE_SIZE) ==> Load(mem, a) == Load(old(mem), a)
        decreases top - address
      {
        mem := mem[table + 4 * i := MakeEntry(address, RW_PRESENT)];
        i := i + 1;
        address := address + PAGE_SIZE;
      }
      present := i;
      while i % 1024 > 0
        invariant present <= i <= 1024
        invariant forall j :: 0 <= j < i ==> Load(mem, table + 4 * j) == Linear(first, top, j)
        invariant forall a :: !(table <= a < table + PAGE_SIZE) ==> Load(mem, a) == Load(old(mem), a)
        decreases 1024 - i
      {
        mem := mem[table + 4 * i := MakeEntry(0, RW_ABSENT)];
        i := i + 1;
      }
    }

    /** map_ktables: one directory entry per kernel table. */
    method MapKtables()
      requires numKernelTables == 0
      modifies this`mem
      ensures mem == old(mem)[P_KERNEL_PAGE_DIRECTORY + 4 * 0x300 := MakeEntry(P_PAGE_TABLE_KERNEL_1, RW_PRESENT)]
    {
      var address := P_PAGE_TABLE_KERNEL_1;
      var i := 0;
      while i <= numKernelTables
        invariant 0 <= i <= 1
        invariant i == 0 ==> mem == old(mem) && address == P_PAGE_TABLE_KERNEL_1
        invariant i == 1 ==> mem == old(mem)[P_KERNEL_PAGE_DIRECTORY + 4 * 0x300 := MakeEntry(P_PAGE_TABLE_KERNEL_1, RW_PRESENT)]
      {
        mem := mem[P_KERNEL_PAGE_DIRECTORY + 4 * (i + Virt2Dir(KERNEL_VIRT_ADDR)) := MakeEntry(address, RW_PRESENT)];
        address := Wrap(address + PAGE_SIZE);
        i := i + 1;
      }
    }

    /** The tables of init_virt_mem.  The comment in memory.h that the kernel must stay
        within the first 4MB is the precondition on the start of free memory. */
    method BuildTables(pFreeMemoryStart: word)
      requires KERNEL_PHYS_ADDR < pFreeMemoryStart <= TABLE_SPAN
      modifies this
      ensures Booted(mem, pFreeMemoryStart)
    {
      var n := FillTable(P_PAGE_TABLE_FIRST_4MB, 0, pFreeMemoryStart);
      n := FillTable(P_PAGE_TABLE_KERNEL_1, KERNEL_PHYS_ADDR, pFreeMemoryStart);
      numKernelTables := (n - 1) / 1024;
      var i := 0;
      mem := mem[P_KERNEL_PAGE_DIRECTORY + 4 * i := MakeEntry(P_PAGE_TABLE_FIRST_4MB, RW_PRESENT)];
      i := i + 1;
      ghost var before := mem;
      while i % 1024 > 0
        invariant 1 <= i <= 1024 && numKernelTables == 0
        invariant forall j :: 1 <= j < i ==> Load(mem, P_KERNEL_PAGE_DIRECTORY + 4 * j) == MakeEntry(0, RW_ABSENT)
        invariant forall a :: !(P_KERNEL_PAGE_DIRECTORY < a < P_KERNEL_PAGE_DIRECTORY + PAGE_SIZE) ==> Load(mem, a) == Load(before, a)
        decreases 1024 - i
      {
        mem := mem[P_KERNEL_PAGE_DIRECTORY + 4 * i := MakeEntry(0, RW_ABSENT)];
        i := i + 1;
      }
      ghost var filled := mem;
      MapKtables();
      forall j | 0 <= j < 1024
        ensures Load(mem, P_KERNEL_PAGE_DIRECTORY + 4 * j) == Directory(j)
        ensures Load(mem, P_PAGE_TABLE_FIRST_4MB + 4 * j) == Linear(0, pFreeMemoryStart, j)
        ensures Load(mem, P_PAGE_TABLE_KERNEL_1 + 4 * j) == Linear(KERNEL_PHYS_ADDR, pFreeMemoryStart, j)
      {
        KtablesStored(filled, mem, j);
      }
    }
  }

  /** map_ktables changes one directory entry and no table. */
  lemma KtablesStored(mem: Mem, mem': Mem, j: int)
    requires mem' == mem[P_KERNEL_PAGE_DIRECTORY + 4 * 0x300 := MakeEntry(P_PAGE_TABLE_KERNEL_1, RW_PRESENT)] && 0 <= j < 1024
    ensures Load(mem', P_KERNEL_PAGE_DIRECTORY + 4 * j) ==
      if j == 0x300 then MakeEntry(P_PAGE_TABLE_KERNEL_1, RW_PRESENT) else Load(mem, P_KERNEL_PAGE_DIRECTORY + 4 * j)
    ensures Load(mem', P_PAGE_TABLE_FIRST_4MB + 4 * j) == Load(mem, P_PAGE_TABLE_FIRST_4MB + 4 * j)
    ensures Load(mem', P_PAGE_TABLE_KERNEL_1 + 4 * j) == Load(mem, P_PAGE_TABLE_KERNEL_1 + 4 * j)
  {
  }

  /** Every dword of the boot tables and the directory: present entries hold their frame and the
      flags present and writable, all others the writable flag alone. */
  lemma BootEntries(mem: Mem, top: word, i: nat)
    requires Booted(mem, top) && KERNEL_PHYS_ADDR < top <= TABLE_SPAN && i < 1024
    ensures Load(mem, 0x5000 + 4 * i) as int == if 0x1000 * i < top then 0x1000 * i + 3 else 2
    ensures Load(mem, 0x6000 + 4 * i) as int == if 0x10_0000 + 0x1000 * i < top then 0x10_0000 + 0x1000 * i + 3 else 2
    ensures Load(mem, 0x4000 + 4 * i) as int == if i == 0 then 0x5003 else if i == 0x300 then 0x6003 else 2
  {
    assert Linear(0, top, i) as int == if 0x1000 * i < top then 0x1000 * i + 3 else 2;
    assert Linear(KERNEL_PHYS_ADDR, top, i) as int == if 0x10_0000 + 0x1000 * i < top then 0x10_0000 + 0x1000 * i + 3 else 2;
    assert Directory(i) as int == if i == 0 then 0x5003 else if i == 0x300 then 0x6003 else 2;
  }

  /** Flags of a present and writable entry. */
  predicate KernelEntry(e: word) {
    e % 0x1000 == 3
  }

  lemma KernelRights(e: word)
    requires KernelEntry(e)
    ensures IsPresent(e) && Allows(e, Write) && !Allows(e, User)
  {
    LowBits(e);
  }

  lemma KernelGrants(mem: Mem, pd: int, va: word)
    requires KernelEntry(Pde(mem, pd, va)) && KernelEntry(Load(mem, PteAddress(mem, pd, va)))
    ensures Grants(mem, pd, va, Write) && !Grants(mem, pd, va, User)
  {
    KernelRights(Pde(mem, pd, va));
    KernelRights(Load(mem, PteAddress(mem, pd, va)));
  }

  /** Whatever the boot tables map is the kernel's to write and closed to the user. */
  lemma BootGrants(mem: Mem, top: word, va: word)
    requires Booted(mem, top) && KERNEL_PHYS_ADDR < top <= TABLE_SPAN && Walk(mem, P_KERNEL_PAGE_DIRECTORY, va).Some?
    ensures Grants(mem, P_KERNEL_PAGE_DIRECTORY, va, Write) && !Grants(mem, P_KERNEL_PAGE_DIRECTORY, va, User)
  {
    hide Booted, Virt2Dir, Virt2Page, Allows, Grants;
    BootEntries(mem, top, Virt2Dir(va));
    BootEntries(mem, top, Virt2Page(va));
    KernelGrants(mem, P_KERNEL_PAGE_DIRECTORY, va);
  }

  /** The directory, dword by dword, after init_heap. */
  function HeapEntry(i: int): int {
    if i == 0 then 0x5003 else if i == 0x300 then 0x6003 else if i == 0x340 then 0x7003 else if i == 0x3C0 then 0x4003 else 2
  }

  lemma HeapEntryIs(i: int)
    ensures HeapDirectory(i) as int == HeapEntry(i)
  {
  }

  /** The directory and the first entry of the heap's table after init_heap. */
  ghost predicate HeapSet(mem: Mem, mem': Mem, heapPage: word) {
    && (forall i :: 0 <= i < 1024 ==> Load(mem', 0x4000 + 4 * i) as int == HeapEntry(i))
    && Load(mem', 0x7000) as int == heapPage / 0x1000 * 0x1000 + 3
    && (forall a :: !(0x4000 <= a < 0x5000) && a != 0x7000 ==> Load(mem', a) == Load(mem, a))
  }

  /** Whatever is mapped after init_heap outside the heap, and the heap's first page, is the
      kernel's to write and closed to the user; so is the heap's table. */
  lemma HeapGrants(mem: Mem, mem': Mem, top: word, heapPage: word, va: word)
    requires Booted(mem, top) && KERNEL_PHYS_ADDR < top <= TABLE_SPAN && HeapSet(mem, mem', heapPage)
    ensures Virt2Dir(va) == 0x340 ==> KernelEntry(Pde(mem', P_KERNEL_PAGE_DIRECTORY, va))
    ensures Walk(mem', P_KERNEL_PAGE_DIRECTORY, va).Some? && (Virt2Dir(va) == 0x340 ==> Virt2Page(va) == 0) ==>
      Grants(mem', P_KERNEL_PAGE_DIRECTORY, va, Write) && !Grants(mem', P_KERNEL_PAGE_DIRECTORY, va, User)
  {
    hide Booted, Virt2Dir, Virt2Page, Allows, Grants;
    var (d, p, pd) := (Virt2Dir(va), Virt2Page(va), P_KERNEL_PAGE_DIRECTORY);
    assert Pde(mem', pd, va) == Load(mem', 0x4000 + 4 * d) && Load(mem', 0x4000 + 4 * d) as int == HeapEntry(d);
    if Walk(mem', pd, va).Some? && (d == 0x340 ==> p == 0) {
      var t := Frame(Pde(mem', pd, va));
      assert d == 0 || d == 0x300 || d == 0x340 || d == 0x3C0;
      assert t == if d == 0 then 0x5000 else if d == 0x300 then 0x6000 else if d == 0x340 then 0x7000 else 0x4000;
      TableEntry(mem, mem', top, heapPage, d, p);
      KernelGrants(mem', pd, va);
    }
  }

  /** A present entry of a table that is set up. */
  lemma TableEntry(mem: Mem, mem': Mem, top: word, heapPage: word, d: int, p: nat)
    requires Booted(mem, top) && KERNEL_PHYS_ADDR < top <= TABLE_SPAN && HeapSet(mem, mem', heapPage) && p < 1024
    requires (d == 0 || d == 0x300 || d == 0x340 || d == 0x3C0) && (d == 0x340 ==> p == 0)
    ensures var t := if d == 0 then 0x5000 else if d == 0x300 then 0x6000 else if d == 0x340 then 0x7000 else 0x4000;
      IsPresent(Load(mem', t + 4 * p)) ==> KernelEntry(Load(mem', t + 4 * p))
  {
    BootEntries(mem, top, p);
    FlagsOf(heapPage);
    assert Load(mem', 0x4000 + 4 * p) as int == HeapEntry(p);
    hide Booted;
  }

  lemma FlagsOf(phys: word)
    ensures (phys / 0x1000 * 0x1000 + 3) % 0x1000 == 3
  {
    LowTwelve(phys / 0x1000, 3);
  }

  /** init_heap's three stores. */
  method InitHeap(mem: Mem, heapPage: word, ghost top: word) returns (mem': Mem)
    requires Booted(mem, top)
    ensures SelfMapped(mem', P_KERNEL_PAGE_DIRECTORY)
    ensures forall va: word :: Virt2Dir(va) == 0x340 ==> Mappable(mem', P_KERNEL_PAGE_DIRECTORY, va)
    ensures forall va: word :: Virt2Dir(va) != 0x340 && Virt2Dir(va) != SELF ==>
      Walk(mem', P_KERNEL_PAGE_DIRECTORY, va) == Walk(mem, P_KERNEL_PAGE_DIRECTORY, va)
    ensures forall va: word :: V_KERNEL_HEAP_ADDR <= va < V_KERNEL_HEAP_ADDR + PAGE_SIZE ==>
      Walk(mem', P_KERNEL_PAGE_DIRECTORY, va) == Some(Frame(heapPage) + (va - V_KERNEL_HEAP_ADDR))
    ensures HeapSet(mem, mem', heapPage)
  {
    mem' := mem[P_KERNEL_PAGE_DIRECTORY + 4 * Virt2Dir(V_KERNEL_HEAP_ADDR) := MakeEntry(P_PAGE_TABLE_HEAP_1, RW_PRESENT)];
    mem' := mem'[P_PAGE_TABLE_HEAP_1 := MakeEntry(heapPage, RW_PRESENT)];
    mem' := mem'[P_KERNEL_PAGE_DIRECTORY + 4 * Virt2Dir(V_KERNEL_PAGE_TABLE_1) := MakeEntry(P_KERNEL_PAGE_DIRECTORY, RW_PRESENT)];
    forall va: word
      ensures SelfMapped(mem', P_KERNEL_PAGE_DIRECTORY)
      ensures Virt2Dir(va) == 0x340 ==> Mappable(mem', P_KERNEL_PAGE_DIRECTORY, va)
      ensures Virt2Dir(va) != 0x340 && Virt2Dir(va) != SELF ==>
        Walk(mem', P_KERNEL_PAGE_DIRECTORY, va) == Walk(mem, P_KERNEL_PAGE_DIRECTORY, va)
    {
      HeapReady(mem, mem', top, va);
    }
    HeapFirstPage(mem', heapPage);
    HeapIsSet(mem, mem', top, heapPage);
  }

  lemma HeapIsSet(mem: Mem, mem': Mem, top: word, heapPage: word)
    requires Booted(mem, top) && Load(mem', P_PAGE_TABLE_HEAP_1) == MakeEntry(heapPage, RW_PRESENT)
    requires forall i :: 0 <= i < 1024 ==> Load(mem', P_KERNEL_PAGE_DIRECTORY + 4 * i) == HeapDirectory(i)
    requires forall a :: !(P_KERNEL_PAGE_DIRECTORY <= a < P_PAGE_TABLE_FIRST_4MB) && a != P_PAGE_TABLE_HEAP_1 ==> Load(mem', a) == Load(mem, a)
    ensures HeapSet(mem, mem', heapPage)
  {
    EntryValue(heapPage);
    forall i | 0 <= i < 1024 ensures Load(mem', 0x4000 + 4 * i) as int == HeapEntry(i) {
      HeapEntryIs(i);
      assert Load(mem', P_KERNEL_PAGE_DIRECTORY + 4 * i) == HeapDirectory(i);
    }
  }

  lemma EntryValue(phys: word)
    ensures MakeEntry(phys, RW_PRESENT) as int == phys / 0x1000 * 0x1000 + 3
  {
  }

  lemma HeapFirstPage(mem: Mem, heapPage: word)
    requires Load(mem, P_KERNEL_PAGE_DIRECTORY + 4 * 0x340) == MakeEntry(P_PAGE_TABLE_HEAP_1, RW_PRESENT)
    requires Load(mem, P_PAGE_TABLE_HEAP_1) == MakeEntry(heapPage, RW_PRESENT)
    ensures forall va: word :: V_KERNEL_HEAP_ADDR <= va < V_KERNEL_HEAP_ADDR + PAGE_SIZE ==>
      Walk(mem, P_KERNEL_PAGE_DIRECTORY, va) == Some(Frame(heapPage) + (va - V_KERNEL_HEAP_ADDR))
  {
    EntryFields(heapPage, RW_PRESENT);
    EntryFields(P_PAGE_TABLE_HEAP_1, RW_PRESENT);
  }

  /** A linear table translates the pages below top. */
  lemma LinearEntry(first: word, top: word, i: nat)
    requires i < 1024 && first + 1024 * PAGE_SIZE <= WORD && first % PAGE_SIZE == 0
    ensures var e := Linear(first, top, i);
      && (IsPresent(e) <==> first + i * PAGE_SIZE < top)
      && (IsPresent(e) ==> Frame(e) == first + i * PAGE_SIZE)
  {
    if first + i * PAGE_SIZE < top {
      EntryFields(first + i * PAGE_SIZE, RW_PRESENT);
    } else {
      EntryFields(0, RW_ABSENT);
    }
  }

  /** Being below the rounded end is a matter of the page. */
  lemma BelowRounded(first: word, top: word, offset: nat)
    requires first % PAGE_SIZE == 0 && first < top
    ensures first + offset / PAGE_SIZE * PAGE_SIZE < top <==> first + offset < RoundUp(top)
  {
    assert first + offset / PAGE_SIZE * PAGE_SIZE == (first + offset) / PAGE_SIZE * PAGE_SIZE;
  }

  lemma SplitAddress(va: word)
    ensures va == Virt2Dir(va) * TABLE_SPAN + Virt2Page(va) * PAGE_SIZE + va % PAGE_SIZE
    ensures Virt2Page(va) == va % TABLE_SPAN / PAGE_SIZE
  {
  }

  lemma DirectoryEntry(i: int)
    requires 0 <= i < 1024
    ensures IsPresent(Directory(i)) <==> i == 0 || i == 0x300
    ensures i == 0 ==> Frame(Directory(i)) == P_PAGE_TABLE_FIRST_4MB
    ensures i == 0x300 ==> Frame(Directory(i)) == P_PAGE_TABLE_KERNEL_1
  {
  }

  /** Entry i of the directory after init_heap. */
  function HeapDirectory(i: int): word {
    if i == 0x340 then MakeEntry(P_PAGE_TABLE_HEAP_1, RW_PRESENT)
    else if i == SELF then MakeEntry(P_KERNEL_PAGE_DIRECTORY, RW_PRESENT)
    else Directory(i)
  }

  /** The table behind a present entry. */
  function HeapTable(i: int): word {
    if i == 0 then P_PAGE_TABLE_FIRST_4MB else if i == 0x300 then P_PAGE_TABLE_KERNEL_1
    else if i == 0x340 then P_PAGE_TABLE_HEAP_1 else P_KERNEL_PAGE_DIRECTORY
  }

  lemma HeapDirectoryEntry(i: int)
    requires 0 <= i < 1024
    ensures IsPresent(HeapDirectory(i)) <==> i == 0 || i == 0x300 || i == 0x340 || i == SELF
    ensures IsPresent(HeapDirectory(i)) ==> Frame(HeapDirectory(i)) == HeapTable(i)
  {
  }

  /** After init_heap the self-map is in place, the heap's table can be mapped into, and
      nothing outside the heap and the self-map has moved. */
  lemma HeapReady(mem: Mem, mem': Mem, top: word, va: word)
    requires Booted(mem, top)
    requires forall i :: 0 <= i < 1024 ==> Load(mem', P_KERNEL_PAGE_DIRECTORY + 4 * i) == HeapDirectory(i)
    requires forall a :: !(P_KERNEL_PAGE_DIRECTORY <= a < P_PAGE_TABLE_FIRST_4MB) && a != P_PAGE_TABLE_HEAP_1 ==> Load(mem', a) == Load(mem, a)
    ensures SelfMapped(mem', P_KERNEL_PAGE_DIRECTORY)
    ensures Virt2Dir(va) == 0x340 ==> Mappable(mem', P_KERNEL_PAGE_DIRECTORY, va)
    ensures Virt2Dir(va) != 0x340 && Virt2Dir(va) != SELF ==>
      Walk(mem', P_KERNEL_PAGE_DIRECTORY, va) == Walk(mem, P_KERNEL_PAGE_DIRECTORY, va)
  {
    hide HeapDirectory, Directory, Frame, IsPresent, Virt2Dir, Virt2Page, Linear;
    var pd := P_KERNEL_PAGE_DIRECTORY;
    HeapDirectoryEntry(SELF);
    assert Load(mem', pd + 4 * SELF) == HeapDirectory(SELF);
    forall d, e | 0 <= d < e < 1024 && IsPresent(Load(mem', pd + 4 * d)) && IsPresent(Load(mem', pd + 4 * e))
      ensures Frame(Load(mem', pd + 4 * d)) != Frame(Load(mem', pd + 4 * e))
    {
      HeapDirectoryEntry(d);
      HeapDirectoryEntry(e);
    }
    var d := Virt2Dir(va);
    HeapDirectoryEntry(d);
    if d != 0x340 && d != SELF {
      DirectoryEntry(d);
      assert Pde(mem', pd, va) == HeapDirectory(d) == Directory(d) == Pde(mem, pd, va) by {
        PlainEntry(d);
      }
    }
  }

  lemma PlainEntry(d: int)
    requires d != 0x340 && d != SELF
    ensures HeapDirectory(d) == Directory(d)
  {
  }

  /** The boot translation of every address: identity below the rounded start of free
      memory, the kernel at its linear base, nothing else. */
  lemma BootWalk(mem: Mem, top: word, va: word)
    requires Booted(mem, top) && KERNEL_PHYS_ADDR < top <= TABLE_SPAN
    ensures Walk(mem, P_KERNEL_PAGE_DIRECTORY, va) ==
      if va < RoundUp(top) then Some(va)
      else if KERNEL_VIRT_ADDR <= va < KERNEL_VIRT_ADDR + (RoundUp(top) - KERNEL_PHYS_ADDR)
      then Some(va - KERNEL_VIRT_ADDR + KERNEL_PHYS_ADDR)
      else None
  {
    hide Linear, Directory, Frame, IsPresent, Virt2Dir, Virt2Page, RoundUp;
    var (d, p) := (Virt2Dir(va), Virt2Page(va));
    SplitAddress(va);
    DirectoryEntry(d);
    RoundedBounds(top);
    assert Pde(mem, P_KERNEL_PAGE_DIRECTORY, va) == Directory(d);
    if d == 0 {
      LinearEntry(0, top, p);
      BelowRounded(0, top, va);
    } else if d == 0x300 {
      LinearEntry(KERNEL_PHYS_ADDR, top, p);
      BelowRounded(KERNEL_PHYS_ADDR, top, va - KERNEL_VIRT_ADDR);
    }
  }

  lemma RoundedBounds(top: word)
    ensures top <= RoundUp(top) < top + PAGE_SIZE && RoundUp(top) % PAGE_SIZE == 0
    ensures top <= TABLE_SPAN ==> RoundUp(top) <= TABLE_SPAN
  {
  }
}
