/** The memory manager from the boot tables to the first allocation. */
module Memory {
  import opened Words
  import opened Paging
  import BootTables
  import FreePages
  import Heap

  /** The pages the free list leaves for the heap: all but the first, which is never handed
      out, and the last, which backs the heap's first page. */
  function ForHeap(total: word): seq<int>
    requires total > FreePages.P_START_FREE_RAM
  {
    var s := FreePages.FreeList(FreePages.PagesBelow(total));
    if |s| < 2 then [] else s[1..|s| - 1]
  }

  /** The last part of init_virt_mem: the free list, as the page allocator finds it. */
  method InitPages(total: word, freeStart: word) returns (pages: FreePages.PageStack)
    requires FreePages.P_START_FREE_RAM < total <= WORD - PAGE_SIZE
    requires freeStart >= BootTables.KERNEL_PHYS_ADDR
    ensures fresh(pages) && fresh(pages.list) && pages.Valid()
    ensures var s := FreePages.FreeList(FreePages.PagesBelow(total)); s != [] && pages.Left() == s[1..]
  {
    var list := new word[total / 1024 / 4](_ => 0);
    var entries := FreePages.BuildFreeList(list, total, freeStart);
    pages := new FreePages.PageStack(total, list, entries);
    Listed(list[..], entries, total);
    assert pages.Left() == list[..][1..entries + 1];
  }

  /** Once the heap's first page is drawn. */
  lemma AfterFirstPage(total: word, left: seq<word>, left': seq<word>, page: word)
    requires total > FreePages.P_START_FREE_RAM
    requires var s := FreePages.FreeList(FreePages.PagesBelow(total)); s != [] && left == s[1..]
    requires if left == [] then left' == [] else left == left' + [page]
    ensures left' == ForHeap(total)
  {
    var s := FreePages.FreeList(FreePages.PagesBelow(total));
    hide FreePages.FreeList;
    if left != [] {
      assert left' == left[..|left| - 1];
    }
  }

  /** init_virt_mem and init_heap: page tables, free list and heap.  Afterwards kmalloc can hand out 4MB. */
  method InitMemory(memory: Mem, total: word, freeStart: word) returns (heap: Heap.KernelHeap)
    requires FreePages.P_START_FREE_RAM < total <= WORD - PAGE_SIZE
    requires BootTables.KERNEL_PHYS_ADDR < freeStart <= TABLE_SPAN
    ensures fresh(heap) && fresh(heap.pager) && fresh(heap.pages) && fresh(heap.pages.list)
    ensures heap.Valid() && heap.freeBytes == 0 && heap.vHeapMappedLimit == Heap.V_KERNEL_HEAP_ADDR
    ensures heap.Room(TABLE_SPAN)
    ensures heap.pages.Left() == ForHeap(total)
    ensures forall va: word :: Heap.V_KERNEL_HEAP_ADDR <= va < Heap.V_KERNEL_HEAP_ADDR + TABLE_SPAN ==>
      BootTables.KernelEntry(Pde(heap.pager.mem, heap.pager.pd, va))
  {
    hide FreePages.FreeList, FreePages.PagesBelow, ForHeap, SelfMapped, Walk, BootTables.Booted, BootTables.HeapSet;
    var boot := new BootTables.Boot(memory);
    boot.BuildTables(freeStart);
    var pages := InitPages(total, freeStart);
    ghost var left := pages.Left();
    var heapPage := pages.AllocPage();
    AfterFirstPage(total, left, pages.Left(), heapPage);
    var mem := BootTables.InitHeap(boot.mem, heapPage, freeStart);
    var pager := new Pager(mem, BootTables.P_KERNEL_PAGE_DIRECTORY);
    heap := new Heap.KernelHeap(pager, pages);
    forall a: word | Heap.V_KERNEL_HEAP_ADDR <= a < Heap.V_KERNEL_HEAP_ADDR + TABLE_SPAN ensures Mappable(mem, pager.pd, a) {
      assert Virt2Dir(a) == 0x340;
    }
    forall a: word | Heap.V_KERNEL_HEAP_ADDR <= a < Heap.V_KERNEL_HEAP_ADDR + TABLE_SPAN ensures BootTables.KernelEntry(Pde(mem, pager.pd, a)) {
      BootTables.HeapGrants(boot.mem, mem, freeStart, heapPage, a);
    }
  }

  /** From boot, any run of kmalloc that stays within 4MB: blocks one after the other from the
      start of the heap, and as many pages drawn as their bytes fill, while there are any.  Every
      byte handed out is in a page the run mapped, the kernel's to write and closed to the user,
      if and only if no request drew pages from within a page; otherwise some page in use
      translates as the heap's table, which init_heap does not clear, happens to say. */
  method FirstAllocations(memory: Mem, total: word, freeStart: word, sizes: seq<word>) returns (heap: Heap.KernelHeap, blocks: seq<word>)
    requires FreePages.P_START_FREE_RAM < total <= WORD - PAGE_SIZE
    requires BootTables.KERNEL_PHYS_ADDR < freeStart <= TABLE_SPAN && Heap.Total(sizes) <= TABLE_SPAN
    ensures heap.Valid() && Heap.IsLaidOut(blocks, sizes, Heap.V_KERNEL_HEAP_ADDR)
    ensures |heap.pages.Left()| == Heap.Remaining(|ForHeap(total)|, Heap.PagesTo(Heap.Total(sizes)))
    ensures Heap.AllNeat(Heap.V_KERNEL_HEAP_ADDR, sizes) ==>
      forall va: word :: Heap.V_KERNEL_HEAP_ADDR <= va < Heap.V_KERNEL_HEAP_ADDR + Heap.Total(sizes) ==>
        && Walk(heap.pager.mem, heap.pager.pd, va).Some?
        && Grants(heap.pager.mem, heap.pager.pd, va, Write) && !Grants(heap.pager.mem, heap.pager.pd, va, User)
    ensures !Heap.AllNeat(Heap.V_KERNEL_HEAP_ADDR, sizes) ==> exists q :: InUse(q, sizes) && !Heap.AskedBy(Heap.V_KERNEL_HEAP_ADDR, sizes, q)
  {
    hide Mappable, Walk, Pde, Grants, Heap.RunMaps, BootTables.KernelEntry, Heap.AskedBy, Heap.AllNeat, Heap.PagesTo;
    heap := InitMemory(memory, total, freeStart);
    ghost var mem := heap.pager.mem;
    Heap.PagesFromStart(Heap.Total(sizes));
    blocks := heap.KMallocRun(sizes);
    Heap.AllAskedIff(Heap.V_KERNEL_HEAP_ADDR, sizes);
    if Heap.AllNeat(Heap.V_KERNEL_HEAP_ADDR, sizes) {
      forall va: word | Heap.V_KERNEL_HEAP_ADDR <= va < Heap.V_KERNEL_HEAP_ADDR + Heap.Total(sizes)
        ensures Walk(heap.pager.mem, heap.pager.pd, va).Some?
        ensures Grants(heap.pager.mem, heap.pager.pd, va, Write) && !Grants(heap.pager.mem, heap.pager.pd, va, User)
      {
        PageInUse(va, sizes);
        var q := va / PAGE_SIZE;
        assert Heap.AskedBy(Heap.V_KERNEL_HEAP_ADDR, sizes, q);
        IsMapped(mem, heap.pager.mem, heap.pager.pd, sizes, va);
      }
    } else {
      var q :| Heap.V_KERNEL_HEAP_ADDR / PAGE_SIZE <= q < Heap.PagesTo(Heap.V_KERNEL_HEAP_ADDR + Heap.Total(sizes))
        && !Heap.AskedBy(Heap.V_KERNEL_HEAP_ADDR, sizes, q);
      assert InUse(q, sizes);
    }
  }

  /** Page q holds bytes a run from boot handed out. */
  predicate InUse(q: nat, sizes: seq<word>) {
    Heap.V_KERNEL_HEAP_ADDR / PAGE_SIZE <= q < Heap.PagesTo(Heap.V_KERNEL_HEAP_ADDR + Heap.Total(sizes))
  }

  lemma PageInUse(va: word, sizes: seq<word>)
    requires Heap.V_KERNEL_HEAP_ADDR <= va < Heap.V_KERNEL_HEAP_ADDR + Heap.Total(sizes)
    ensures InUse(va / PAGE_SIZE, sizes)
  {
  }

  lemma IsMapped(mem: Mem, mem': Mem, pd: int, sizes: seq<word>, va: word)
    requires Heap.V_KERNEL_HEAP_ADDR + Heap.Total(sizes) < WORD
    requires Heap.RunMaps(mem, mem', pd, Heap.V_KERNEL_HEAP_ADDR, sizes, va)
    requires Heap.AskedBy(Heap.V_KERNEL_HEAP_ADDR, sizes, va / PAGE_SIZE) && BootTables.KernelEntry(Pde(mem, pd, va))
    ensures Walk(mem', pd, va).Some? && Grants(mem', pd, va, Write) && !Grants(mem', pd, va, User)
  {
    BootTables.KernelRights(Pde(mem, pd, va));
  }

  /** The list built at boot is one the page stack can work on. */
  lemma Listed(list: seq<word>, entries: word, total: word)
    requires total > FreePages.P_START_FREE_RAM
    requires var s := FreePages.FreeList(FreePages.PagesBelow(total)); 0 < |s| <= |list| && list[..|s|] == s && entries == |s| - 1
    ensures entries < |list| && forall i :: 1 <= i <= entries ==> list[i] > 0
    ensures var s := FreePages.FreeList(FreePages.PagesBelow(total)); list[1..entries + 1] == s[1..]
  {
    var s := FreePages.FreeList(FreePages.PagesBelow(total));
    FreePages.FreeListIs(FreePages.PagesBelow(total));
    forall i | 1 <= i <= entries ensures list[i] > 0 {
      assert list[i] == list[..|s|][i] == s[i] && s[i] in s;
    }
  }
}
