/** kmalloc and sbrk of memory.c: a heap that only grows. */
module Heap {
  import opened Words
  import opened Paging
  import FreePages

  const V_KERNEL_HEAP_ADDR: word := 0xD000_0000

  function PageFloor(a: word): word {
    a / PAGE_SIZE * PAGE_SIZE
  }

  /** Bytes from an address to the end of its page; none when it starts a page. */
  function Slack(limit: word): nat {
    if limit % PAGE_SIZE == 0 then 0 else PageFloor(limit) + PAGE_SIZE - limit
  }

  /** Pages that hold the bytes below an address. */
  function PagesTo(a: nat): nat {
    (a + PAGE_SIZE - 1) / PAGE_SIZE
  }

  /** Pages sbrk draws: as many as the request reaches past the pages in use. */
  function Draws(limit: word, n: word): nat {
    PagesTo(limit + n) - PagesTo(limit)
  }

  lemma DrawsStep(limit: word, n: word, k: nat)
    ensures Slack(limit) + k * PAGE_SIZE < n <==> k < Draws(limit, n)
  {
    assert PagesTo(limit) * PAGE_SIZE == limit + Slack(limit);
  }

  /** The i-th page sbrk asks to have mapped. */
  function Asked(limit: word, i: nat): nat {
    PageFloor(limit) + i * PAGE_SIZE
  }

  /** Every page asked for lies on the way to the end of the block. */
  lemma AskedBelowEnd(limit: word, n: word, i: nat)
    requires i < Draws(limit, n)
    ensures Asked(limit, i) < limit + n && Asked(limit, i) % PAGE_SIZE == 0
  {
    DrawsStep(limit, n, i);
  }

  /** The pages asked for hold the new block, together with the rest of the page in use, if
      and only if the heap's end was on a page boundary or no page was needed: otherwise the
      page in use is asked for again, and the block's last page never is. */
  lemma AskedCoverBlockIff(limit: word, n: word)
    requires 0 < n && limit + n <= WORD
    ensures (forall b: word :: limit <= b < limit + n ==>
               || (limit % PAGE_SIZE != 0 && PageFloor(b) == PageFloor(limit))
               || (exists i :: 0 <= i < Draws(limit, n) && PageFloor(b) == Asked(limit, i)))
      <==> limit % PAGE_SIZE == 0 || n <= Slack(limit)
    ensures (exists i :: 0 <= i < Draws(limit, n) && limit % PAGE_SIZE != 0 && Asked(limit, i) == PageFloor(limit))
      <==> !(limit % PAGE_SIZE == 0 || n <= Slack(limit))
  {
    DrawsStep(limit, n, 0);
    var last := limit + n - 1;
    if limit % PAGE_SIZE == 0 || n <= Slack(limit) {
      forall b: word | limit <= b < limit + n
        ensures (limit % PAGE_SIZE != 0 && PageFloor(b) == PageFloor(limit))
          || (exists i :: 0 <= i < Draws(limit, n) && PageFloor(b) == Asked(limit, i))
      {
        if limit % PAGE_SIZE == 0 {
          AlignedPage(limit, n, b);
        } else {
          SlackPage(limit, b);
        }
      }
    } else {
      assert Asked(limit, 0) == PageFloor(limit);
      LastPageNotAsked(limit, n);
      assert PageFloor(last) != PageFloor(limit);
    }
  }

  lemma AlignedPage(limit: word, n: word, b: word)
    requires limit % PAGE_SIZE == 0 && limit <= b < limit + n
    ensures var i := b / PAGE_SIZE - limit / PAGE_SIZE; 0 <= i < Draws(limit, n) && PageFloor(b) == Asked(limit, i)
  {
    var i := b / PAGE_SIZE - limit / PAGE_SIZE;
    DrawsStep(limit, n, i);
  }

  lemma SlackPage(limit: word, b: word)
    requires limit % PAGE_SIZE != 0 && limit <= b < limit + Slack(limit)
    ensures PageFloor(b) == PageFloor(limit)
  {
  }

  lemma LastPageNotAsked(limit: word, n: word)
    requires 0 < n && limit + n <= WORD && limit % PAGE_SIZE != 0 && Slack(limit) < n
    ensures PageFloor(limit + n - 1) == Asked(limit, Draws(limit, n)) > PageFloor(limit)
    ensures forall i :: 0 <= i < Draws(limit, n) ==> Asked(limit, i) < PageFloor(limit + n - 1)
  {
    DrawsStep(limit, n, 0);
    assert PagesTo(limit + n) == (limit + n - 1) / PAGE_SIZE + 1;
    assert PagesTo(limit) == limit / PAGE_SIZE + 1;
  }

  // ----- the memory side of sbrk -----

  /** Mapping pages, one after the other, from the page of limit on. */
  function MapEach(mem: Mem, pd: int, limit: word, pages: seq<word>): Mem
    requires PageFloor(limit) + |pages| * PAGE_SIZE <= WORD
  {
    if pages == [] then mem
    else
      var k := |pages| - 1;
      MapPage(MapEach(mem, pd, limit, pages[..k]), pd, Asked(limit, k), pages[k], RW_PRESENT)
  }

  /** Each page asked for is where it was put, everything else where it was. */
  lemma {:induction false} MapEachMaps(mem: Mem, pd: int, limit: word, pages: seq<word>, va: word)
    requires SelfMapped(mem, pd) && PageFloor(limit) + |pages| * PAGE_SIZE <= WORD
    requires forall i :: 0 <= i < |pages| ==> Mappable(mem, pd, Asked(limit, i))
    ensures var mem' := MapEach(mem, pd, limit, pages); var i := (va - PageFloor(limit)) / PAGE_SIZE;
      && SelfMapped(mem', pd) && Pde(mem', pd, va) == Pde(mem, pd, va)
      && Walk(mem', pd, va) == if 0 <= i < |pages| then Some(Frame(pages[i]) + va % PAGE_SIZE) else Walk(mem, pd, va)
  {
    FloorFrame(limit);
    hide SelfMapped, Walk, MapPage, SamePage, Frame, IsPresent, Pde;
    if pages != [] {
      var k := |pages| - 1;
      MapEachMaps(mem, pd, limit, pages[..k], va);
      MapEachMaps(mem, pd, limit, pages[..k], Asked(limit, k));
      var mid := MapEach(mem, pd, limit, pages[..k]);
      MapPageMaps(mid, pd, Asked(limit, k), pages[k], RW_PRESENT, va);
      PageOf(PageFloor(limit), k, va);
      assert SamePage(va, Asked(limit, k)) <==> (va - PageFloor(limit)) / PAGE_SIZE == k by {
        QuotientIs(va - PageFloor(limit), k);
      }
      assert IsPresent(RW_PRESENT) by {
        PresentFlag();
      }
    }
  }

  /** The pages asked for are the kernel's to write and closed to the user, as far as the directory
      lets them; every other page has the rights it had. */
  lemma {:induction false} MapEachGrants(mem: Mem, pd: int, limit: word, pages: seq<word>, va: word, b: Access)
    requires SelfMapped(mem, pd) && PageFloor(limit) + |pages| * PAGE_SIZE <= WORD
    requires forall i :: 0 <= i < |pages| ==> Mappable(mem, pd, Asked(limit, i))
    ensures var i := (va - PageFloor(limit)) / PAGE_SIZE;
      Grants(MapEach(mem, pd, limit, pages), pd, va, b) <==>
        if 0 <= i < |pages| then b == Write && Allows(Pde(mem, pd, va), b) else Grants(mem, pd, va, b)
  {
    FloorFrame(limit);
    PresentFlag();
    hide SelfMapped, Walk, MapPage, SamePage, Frame, IsPresent, Pde, Grants, Allows;
    if pages != [] {
      var k := |pages| - 1;
      MapEachGrants(mem, pd, limit, pages[..k], va, b);
      MapEachMaps(mem, pd, limit, pages[..k], va);
      MapEachMaps(mem, pd, limit, pages[..k], Asked(limit, k));
      var mid := MapEach(mem, pd, limit, pages[..k]);
      MapPageGrants(mid, pd, Asked(limit, k), pages[k], RW_PRESENT, va, b);
      PageOf(PageFloor(limit), k, va);
      assert SamePage(va, Asked(limit, k)) <==> (va - PageFloor(limit)) / PAGE_SIZE == k by {
        QuotientIs(va - PageFloor(limit), k);
      }
    }
  }

  lemma FloorFrame(a: word)
    ensures Frame(PageFloor(a)) == PageFloor(a)
  {
  }

  lemma QuotientIs(x: int, k: nat)
    ensures x / PAGE_SIZE == k <==> k * PAGE_SIZE <= x < (k + 1) * PAGE_SIZE
  {
  }

  lemma PresentFlag()
    ensures IsPresent(RW_PRESENT) && Allows(RW_PRESENT, Write) && !Allows(RW_PRESENT, User)
  {
  }

  /** The first n pages alloc_page hands out. */
  function Handed(left: seq<word>, n: nat): (s: seq<word>)
    ensures |s| == n
  {
    seq(n, k requires 0 <= k < n => FreePages.Nth(left, k))
  }

  function Total(sizes: seq<word>): nat {
    if sizes == [] then 0 else Total(sizes[..|sizes| - 1]) + sizes[|sizes| - 1]
  }

  lemma HandedStep(left: seq<word>, i: nat)
    ensures Handed(left, i + 1)[..i] == Handed(left, i)
    ensures Handed(left, i + 1)[i] == FreePages.Nth(left, i)
  {
  }

  lemma MappablePresent(mem: Mem, pd: int, virt: word)
    requires Mappable(mem, pd, virt)
    ensures IsPresent(Pde(mem, pd, virt))
  {
  }

  /** Before any page is drawn. */
  lemma NothingDrawn(limit: word, n: word, left: seq<word>, mem: Mem, pd: int)
    ensures Slack(limit) == if limit % PAGE_SIZE == 0 then 0 else Wrap(PageFloor(limit) + PAGE_SIZE - limit)
    ensures Slack(limit) < n <==> 0 < Draws(limit, n)
    ensures PageFloor(limit) <= WORD && MapEach(mem, pd, limit, Handed(left, 0)) == mem
  {
    DrawsStep(limit, n, 0);
  }

  lemma SbrkStep(limit: word, n: word, i: nat)
    requires limit >= V_KERNEL_HEAP_ADDR && limit + n < WORD && Slack(limit) + i * PAGE_SIZE < n
    ensures i < Draws(limit, n) && PageFloor(limit) <= Asked(limit, i) < limit + n
    ensures PageFloor(limit) + (i + 1) * PAGE_SIZE <= WORD && Slack(limit) + (i + 1) * PAGE_SIZE < WORD
  {
    DrawsStep(limit, n, i);
    AskedBelowEnd(limit, n, i);
  }

  const SBRK_FAILED: word := 0xFFFF_FFFF

  /** Pages left after drawing some, when nothing remains beyond none. */
  function Remaining(left: nat, drawn: nat): nat {
    if drawn <= left then left - drawn else 0
  }

  /** Every block that holds anything starts after the bytes of the blocks before it. */
  ghost predicate IsLaidOut(blocks: seq<word>, sizes: seq<word>, start: word) {
    |blocks| == |sizes| && forall k :: 0 <= k < |sizes| && sizes[k] > 0 ==> blocks[k] == start + Total(sizes[..k])
  }

  lemma NothingLaidOut(sizes: seq<word>, start: word)
    ensures IsLaidOut([], sizes[..0], start) && Total(sizes[..0]) == 0
  {
  }

  lemma LaidOutSnoc(blocks: seq<word>, sizes: seq<word>, start: word, k: nat, p: word)
    requires k < |sizes| && IsLaidOut(blocks, sizes[..k], start)
    requires sizes[k] > 0 ==> p == start + Total(sizes[..k])
    ensures IsLaidOut(blocks + [p], sizes[..k + 1], start)
  {
    forall i | 0 <= i <= k ensures sizes[..k + 1][..i] == sizes[..i] {
    }
    forall i | 0 <= i < k ensures sizes[..k][..i] == sizes[..i] {
    }
  }

  lemma {:induction false} TotalSplits(sizes: seq<word>, k: nat)
    requires k < |sizes|
    ensures Total(sizes[..k + 1]) == Total(sizes[..k]) + sizes[k]
    ensures Total(sizes[..k + 1]) <= Total(sizes)
    decreases |sizes|
  {
    assert sizes[..k + 1][..k] == sizes[..k];
    if k + 1 < |sizes| {
      var front := sizes[..|sizes| - 1];
      assert front[..k + 1] == sizes[..k + 1];
      TotalSplits(front, k);
    } else {
      assert sizes[..k + 1] == sizes;
    }
  }

  /** Blocks laid out one after the other are pairwise disjoint and inside the heap. */
  lemma BlocksDisjoint(blocks: seq<word>, sizes: seq<word>, start: word, j: nat, k: nat)
    requires IsLaidOut(blocks, sizes, start) && j < k < |sizes| && sizes[j] > 0 && sizes[k] > 0
    ensures start <= blocks[j] && blocks[j] as int + sizes[j] <= blocks[k] && blocks[k] as int + sizes[k] <= start + Total(sizes)
  {
    TotalSplits(sizes[..k], j);
    assert sizes[..k][..j] == sizes[..j] && sizes[..k][..j + 1] == sizes[..j + 1];
    TotalSplits(sizes, k);
  }

  /** From the start of the heap, the pages drawn are those that hold the bytes handed out. */
  lemma PagesFromStart(total: nat)
    ensures PagesTo(V_KERNEL_HEAP_ADDR + total) - PagesTo(V_KERNEL_HEAP_ADDR) == PagesTo(total)
  {
  }

  lemma PagesMonotone(a: nat, b: nat)
    requires a <= b
    ensures PagesTo(a) <= PagesTo(b)
    ensures b < WORD ==> PageFloor(a) <= PageFloor(b)
  {
  }

  /** Growing the heap leaves its tables in place. */
  lemma RoomStays(mem: Mem, pd: int, limit: word, n: word, drawn: seq<word>)
    requires SelfMapped(mem, pd) && limit + n < WORD && |drawn| == Draws(limit, n)
    requires forall a: word :: PageFloor(limit) <= a < limit + n ==> Mappable(mem, pd, a)
    ensures PageFloor(limit) + |drawn| * PAGE_SIZE <= WORD
    ensures forall a: word :: Mappable(mem, pd, a) ==> Mappable(MapEach(mem, pd, limit, drawn), pd, a)
    ensures Draws(limit, n) == PagesTo(limit + n) - PagesTo(limit)
  {
    hide SelfMapped, Pde, MapEach, Walk;
    forall i | 0 <= i < |drawn|
      ensures Asked(limit, i) + PAGE_SIZE <= WORD
      ensures Asked(limit, i) < WORD && Mappable(mem, pd, Asked(limit, i))
    {
      AskedBelowEnd(limit, n, i);
    }
    if |drawn| > 0 {
      assert Asked(limit, |drawn| - 1) + PAGE_SIZE <= WORD;
    }
    forall a: word | Mappable(mem, pd, a) ensures Mappable(MapEach(mem, pd, limit, drawn), pd, a) {
      MapEachMaps(mem, pd, limit, drawn, a);
    }
  }

  // ----- which pages a run maps -----

  /** The page with number q is among those one request asks for. */
  predicate AskedIn(limit: word, n: word, q: nat) {
    limit / PAGE_SIZE <= q < limit / PAGE_SIZE + Draws(limit, n)
  }

  /** Some request of a run that started with the heap's end at start asks for page q. */
  predicate AskedBy(start: word, sizes: seq<word>, q: nat)
    requires start + Total(sizes) < WORD
  {
    if sizes == [] then false
    else
      var front := sizes[..|sizes| - 1];
      AskedBy(start, front, q) || AskedIn(start + Total(front), sizes[|sizes| - 1], q)
  }

  /** The request needs no page, or starts on a page boundary. */
  predicate Neat(limit: word, n: word) {
    limit % PAGE_SIZE == 0 || n <= Slack(limit)
  }

  predicate AllNeat(start: word, sizes: seq<word>)
    requires start + Total(sizes) < WORD
  {
    if sizes == [] then true
    else
      var front := sizes[..|sizes| - 1];
      AllNeat(start, front) && Neat(start + Total(front), sizes[|sizes| - 1])
  }

  /** A request asks for a page that already holds bytes handed out before it. */
  predicate Replaces(start: word, sizes: seq<word>)
    requires start + Total(sizes) < WORD
  {
    if sizes == [] then false
    else
      var (front, n) := (sizes[..|sizes| - 1], sizes[|sizes| - 1]);
      var limit := start + Total(front);
      Replaces(start, front) || (limit % PAGE_SIZE != 0 && AskedIn(limit, n, limit / PAGE_SIZE))
  }

  /** What one request asks for: exactly the new pages if it is neat; otherwise the page in use
      and all the new ones but the last. */
  lemma AskedPages(limit: word, n: word, q: nat)
    requires limit + n < WORD
    ensures Neat(limit, n) ==> (AskedIn(limit, n, q) <==> PagesTo(limit) <= q < PagesTo(limit + n))
    ensures !Neat(limit, n) ==> (AskedIn(limit, n, q) <==> PagesTo(limit) - 1 <= q < PagesTo(limit + n) - 1)
    ensures !Neat(limit, n) ==> PagesTo(limit) < PagesTo(limit + n) && PagesTo(limit) - 1 == limit / PAGE_SIZE
  {
    DrawsStep(limit, n, 0);
  }

  lemma {:induction false} AskedBelow(start: word, sizes: seq<word>, q: nat)
    requires start + Total(sizes) < WORD && AskedBy(start, sizes, q)
    ensures q < PagesTo(start + Total(sizes))
  {
    hide AskedIn, PagesTo, Neat;
    var (front, n) := (sizes[..|sizes| - 1], sizes[|sizes| - 1]);
    var limit := start + Total(front);
    PagesMonotone(limit, limit + n);
    if AskedBy(start, front, q) {
      AskedBelow(start, front, q);
    } else {
      AskedPages(limit, n, q);
    }
  }

  lemma {:induction false} NeatCovers(start: word, sizes: seq<word>, q: nat)
    requires start % PAGE_SIZE == 0 && start + Total(sizes) < WORD && AllNeat(start, sizes)
    requires start / PAGE_SIZE <= q < PagesTo(start + Total(sizes))
    ensures AskedBy(start, sizes, q)
  {
    hide AskedIn, Neat;
    if sizes != [] {
      var (front, n) := (sizes[..|sizes| - 1], sizes[|sizes| - 1]);
      var limit := start + Total(front);
      if q < PagesTo(limit) {
        NeatCovers(start, front, q);
      } else {
        AskedPages(limit, n, q);
      }
    }
  }

  /** A run that is not neat leaves a page in use that no request asked for. */
  lemma {:induction false} SkippedPage(start: word, sizes: seq<word>) returns (q: nat)
    requires start % PAGE_SIZE == 0 && start + Total(sizes) < WORD && !AllNeat(start, sizes)
    ensures start / PAGE_SIZE <= q < PagesTo(start + Total(sizes)) && !AskedBy(start, sizes, q)
  {
    hide AskedIn, PagesTo, Neat;
    var (front, n) := (sizes[..|sizes| - 1], sizes[|sizes| - 1]);
    var limit := start + Total(front);
    if Neat(limit, n) {
      q := SkippedPage(start, front);
      PagesMonotone(limit, limit + n);
    } else {
      PagesMonotone(start, limit);
      q := LastNew(start, limit, n);
      if AskedBy(start, front, q) {
        AskedBelow(start, front, q);
      }
    }
    AskedPages(limit, n, q);
  }

  lemma LastNew(start: word, limit: word, n: word) returns (q: nat)
    requires start % PAGE_SIZE == 0 && start <= limit && limit + n < WORD && !Neat(limit, n)
    ensures q == PagesTo(limit + n) - 1 && start / PAGE_SIZE <= PagesTo(limit) <= q
  {
    AskedPages(limit, n, 0);
    q := PagesTo(limit + n) - 1;
  }

  /** From a page boundary, a run maps every page that holds bytes it handed out if and only if
      no request drew pages from within a page; exactly then, too, no page that held earlier
      bytes was asked for again. */
  lemma AllAskedIff(start: word, sizes: seq<word>)
    requires start % PAGE_SIZE == 0 && start + Total(sizes) < WORD
    ensures (forall q :: start / PAGE_SIZE <= q < PagesTo(start + Total(sizes)) ==> AskedBy(start, sizes, q))
       <==> AllNeat(start, sizes)
    ensures Replaces(start, sizes) <==> !AllNeat(start, sizes)
  {
    ReplacesIff(start, sizes);
    if AllNeat(start, sizes) {
      forall q | start / PAGE_SIZE <= q < PagesTo(start + Total(sizes)) ensures AskedBy(start, sizes, q) {
        NeatCovers(start, sizes, q);
      }
    } else {
      var q := SkippedPage(start, sizes);
    }
  }

  lemma {:induction false} ReplacesIff(start: word, sizes: seq<word>)
    requires start + Total(sizes) < WORD
    ensures Replaces(start, sizes) <==> !AllNeat(start, sizes)
  {
    hide AskedIn, Neat, PagesTo;
    if sizes != [] {
      var (front, n) := (sizes[..|sizes| - 1], sizes[|sizes| - 1]);
      ReplacesIff(start, front);
      ReplacesOnce(start + Total(front), n);
    }
  }

  lemma ReplacesOnce(limit: word, n: word)
    requires limit + n < WORD
    ensures limit % PAGE_SIZE != 0 && AskedIn(limit, n, limit / PAGE_SIZE) <==> !Neat(limit, n)
  {
    AskedPages(limit, n, limit / PAGE_SIZE);
  }

  /** After a run, a page some request asked for is mapped, the kernel's to write and closed to
      the user as far as the directory lets it, and any other address translates as it did
      before the run, with the rights it had. */
  ghost predicate RunMaps(mem0: Mem, mem: Mem, pd: int, start: word, sizes: seq<word>, va: word)
    requires start + Total(sizes) < WORD
  {
    && Pde(mem, pd, va) == Pde(mem0, pd, va)
    && (if AskedBy(start, sizes, va / PAGE_SIZE) then Walk(mem, pd, va).Some? else Walk(mem, pd, va) == Walk(mem0, pd, va))
    && RunGrants(mem0, mem, pd, start, sizes, va, Write) && RunGrants(mem0, mem, pd, start, sizes, va, User)
  }

  ghost predicate RunGrants(mem0: Mem, mem: Mem, pd: int, start: word, sizes: seq<word>, va: word, b: Access)
    requires start + Total(sizes) < WORD
  {
    Grants(mem, pd, va, b) <==>
      if AskedBy(start, sizes, va / PAGE_SIZE) then b == Write && Allows(Pde(mem0, pd, va), b) else Grants(mem0, pd, va, b)
  }

  lemma AskedSlot(limit: word, n: word, va: word)
    ensures 0 <= (va - PageFloor(limit)) / PAGE_SIZE < Draws(limit, n) <==> AskedIn(limit, n, va / PAGE_SIZE)
  {
    var l := limit as int / PAGE_SIZE;
    assert PageFloor(limit) == l * PAGE_SIZE && (va - l * PAGE_SIZE) / PAGE_SIZE == va / PAGE_SIZE - l;
  }

  lemma RunStarts(mem: Mem, pd: int, start: word, sizes: seq<word>)
    requires start < WORD
    ensures Total(sizes[..0]) == 0 && forall va: word :: RunMaps(mem, mem, pd, start, sizes[..0], va)
  {
  }

  /** One more request of a run. */
  lemma RunGrows(mem0: Mem, mem: Mem, pd: int, start: word, sizes: seq<word>, k: nat, drawn: seq<word>, va: word)
    requires k < |sizes| && start + Total(sizes[..k]) + sizes[k] < WORD && SelfMapped(mem, pd)
    requires var limit := start + Total(sizes[..k]);
      |drawn| == Draws(limit, sizes[k]) && forall a: word :: PageFloor(limit) <= a < limit + sizes[k] ==> Mappable(mem, pd, a)
    requires RunMaps(mem0, mem, pd, start, sizes[..k], va)
    ensures Total(sizes[..k + 1]) == Total(sizes[..k]) + sizes[k]
    ensures PageFloor(start + Total(sizes[..k])) + |drawn| * PAGE_SIZE <= WORD
    ensures RunMaps(mem0, MapEach(mem, pd, start + Total(sizes[..k]), drawn), pd, start, sizes[..k + 1], va)
  {
    hide SelfMapped, Mappable, MapEach, Walk, AskedIn, Draws, PageFloor, Pde, Grants, Allows;
    var (limit, n) := (start + Total(sizes[..k]), sizes[k]);
    assert sizes[..k + 1][..k] == sizes[..k];
    RoomStays(mem, pd, limit, n, drawn);
    forall i | 0 <= i < |drawn| ensures Asked(limit, i) < WORD && Mappable(mem, pd, Asked(limit, i)) {
      AskedHere(limit, n, i);
    }
    MapEachMaps(mem, pd, limit, drawn, va);
    MapEachGrants(mem, pd, limit, drawn, va, Write);
    MapEachGrants(mem, pd, limit, drawn, va, User);
    AskedSlot(limit, n, va);
  }

  lemma AskedHere(limit: word, n: word, i: nat)
    requires i < Draws(limit, n) && limit + n < WORD
    ensures PageFloor(limit) <= Asked(limit, i) < limit + n
  {
    AskedBelowEnd(limit, n, i);
  }

  lemma NoDraw(mem: Mem, pd: int, limit: word, n: word, drawn: seq<word>)
    requires |drawn| == Draws(limit, n) && PageFloor(limit) + |drawn| * PAGE_SIZE <= WORD
    ensures n == 0 ==> MapEach(mem, pd, limit, drawn) == mem
  {
  }

  class KernelHeap {
    const pager: Pager
    const pages: FreePages.PageStack
    var freeBytes: word
    var kernelHeapEnd: word
    var vHeapMappedLimit: word

    ghost predicate Valid()
      reads this, pager, pages, pages.list
    {
      SelfMapped(pager.mem, pager.pd) && pages.Valid() && vHeapMappedLimit >= V_KERNEL_HEAP_ADDR
    }

    /** The heap can grow by n bytes: it stays in the address space, and the tables for the
        pages on the way exist. */
    ghost predicate Room(n: nat)
      reads this, pager
    {
      && vHeapMappedLimit + n < WORD
      && forall a: word :: PageFloor(vHeapMappedLimit) <= a < vHeapMappedLimit + n ==> Mappable(pager.mem, pager.pd, a)
    }

    constructor (pager: Pager, pages: FreePages.PageStack)
      ensures this.pager == pager && this.pages == pages
      ensures freeBytes == 0 && kernelHeapEnd == V_KERNEL_HEAP_ADDR && vHeapMappedLimit == V_KERNEL_HEAP_ADDR
    {
      this.pager := pager;
      this.pages := pages;
      freeBytes := 0;
      kernelHeapEnd := V_KERNEL_HEAP_ADDR;
      vHeapMappedLimit := V_KERNEL_HEAP_ADDR;
    }

    /** One round of sbrk's loop: the next free page is mapped i pages into the request. */
    method DrawNext(i: word, ghost mem: Mem, ghost left: seq<word>)
      requires Valid() && SelfMapped(mem, pager.pd)
      requires PageFloor(vHeapMappedLimit) + (i + 1) * PAGE_SIZE <= WORD
      requires forall j :: 0 <= j <= i ==> Mappable(mem, pager.pd, Asked(vHeapMappedLimit, j))
      requires pager.mem == MapEach(mem, pager.pd, vHeapMappedLimit, Handed(left, i))
      requires pages.Left() == left[..if i <= |left| then |left| - i else 0]
      modifies pager, pages, pages.list
      ensures Valid()
      ensures pager.mem == MapEach(mem, pager.pd, vHeapMappedLimit, Handed(left, i + 1))
      ensures pages.Left() == left[..if i + 1 <= |left| then |left| - (i + 1) else 0]
    {
      hide SelfMapped, Pde, MapPage, Mappable, FreePages.PageStack.Valid, FreePages.PageStack.Left;
      var newHeapPage := pages.AllocPage();
      HandedStep(left, i);
      var newPageVirt := Wrap(PageFloor(vHeapMappedLimit) + PAGE_SIZE * i);
      assert newPageVirt == Asked(vHeapMappedLimit, i);
      MapEachMaps(mem, pager.pd, vHeapMappedLimit, Handed(left, i), newPageVirt);
      MapEachMaps(mem, pager.pd, vHeapMappedLimit, Handed(left, i + 1), newPageVirt);
      MappablePresent(mem, pager.pd, newPageVirt);
      pager.MapPageHelper(newPageVirt, newHeapPage, RW_PRESENT);
    }

    /** sbrk's loop: pages are drawn and mapped until the request fits. */
    method DrawPages(free0: word, n: word, ghost mem: Mem, ghost left: seq<word>) returns (free: word)
      requires Valid() && Room(n) && mem == pager.mem && left == pages.Left()
      requires free0 == Slack(vHeapMappedLimit)
      modifies pager, pages, pages.list
      ensures Valid() && free >= n
      ensures pager.mem == MapEach(mem, pager.pd, vHeapMappedLimit, Handed(left, Draws(vHeapMappedLimit, n)))
      ensures var d := Draws(vHeapMappedLimit, n); pages.Left() == left[..if d <= |left| then |left| - d else 0]
    {
      hide SelfMapped, Pde, MapPage, Draws, Mappable, Handed, Slack, PageFloor, MapEach, FreePages.PageStack.Valid, FreePages.PageStack.Left;
      free := free0;
      var i: word := 0;
      NothingDrawn(vHeapMappedLimit, n, left, mem, pager.pd);
      while free < n
        invariant i <= Draws(vHeapMappedLimit, n) && free == Slack(vHeapMappedLimit) + i * PAGE_SIZE
        invariant PageFloor(vHeapMappedLimit) + i * PAGE_SIZE <= WORD && Valid()
        invariant pages.Left() == left[..if i <= |left| then |left| - i else 0]
        invariant pager.mem == MapEach(mem, pager.pd, vHeapMappedLimit, Handed(left, i))
        decreases n - free
      {
        SbrkStep(vHeapMappedLimit, n, i);
        forall j | 0 <= j <= i ensures Mappable(mem, pager.pd, Asked(vHeapMappedLimit, j)) {
          SbrkStep(vHeapMappedLimit, n, j);
        }
        DrawNext(i, mem, left);
        i := i + 1;
        free := Wrap(free + PAGE_SIZE);
      }
      DrawsStep(vHeapMappedLimit, n, i);
    }

    /** sbrk maps as many pages as the request reaches past the pages in use, each a newly
        drawn one, and moves the heap's end by exactly the bytes asked for. */
    method Sbrk(n: word) returns (p: word)
      requires Valid() && Room(n)
      modifies this`vHeapMappedLimit, pager, pages, pages.list
      ensures Valid()
      ensures p == old(vHeapMappedLimit) && vHeapMappedLimit == p + n
      ensures pager.mem == MapEach(old(pager.mem), pager.pd, p, Handed(old(pages.Left()), Draws(p, n)))
      ensures var d := Draws(p, n); var left := old(pages.Left()); pages.Left() == left[..if d <= |left| then |left| - d else 0]
    {
      hide SelfMapped, Pde, MapPage, Draws, Mappable, Handed, Slack, PageFloor, MapEach, FreePages.PageStack.Valid, FreePages.PageStack.Left;
      var free: word := 0;
      if vHeapMappedLimit % PAGE_SIZE != 0 {
        free := Wrap(PageFloor(vHeapMappedLimit) + PAGE_SIZE - vHeapMappedLimit);
      }
      NothingDrawn(vHeapMappedLimit, n, pages.Left(), pager.mem, pager.pd);
      if free < n {
        free := DrawPages(free, n, pager.mem, pages.Left());
      }
      p := vHeapMappedLimit;
      vHeapMappedLimit := Wrap(vHeapMappedLimit + n);
      free := Wrap(free - n);
    }

    /** kmalloc: from the bytes set aside, straight from sbrk above a page, or by setting a
        block aside and asking again. kernelHeapEnd is a pointer to dwords, so the first form
        moves it by four times the bytes. */
    method KMalloc(nbytes: word) returns (p: word)
      requires Valid() && (nbytes <= freeBytes || Room(nbytes))
      modifies this, pager, pages, pages.list
      ensures Valid()
      ensures nbytes <= old(freeBytes) ==>
        && p == old(kernelHeapEnd) && kernelHeapEnd == Wrap(p + 4 * nbytes) && freeBytes == old(freeBytes) - nbytes
        && vHeapMappedLimit == old(vHeapMappedLimit) && pager.mem == old(pager.mem) && pages.Left() == old(pages.Left())
      ensures nbytes > old(freeBytes) ==>
        && p == old(vHeapMappedLimit) && vHeapMappedLimit == p + nbytes && freeBytes == old(freeBytes)
        && kernelHeapEnd == Wrap(p + if nbytes > PAGE_SIZE then nbytes else 4 * nbytes)
        && pager.mem == MapEach(old(pager.mem), pager.pd, p, Handed(old(pages.Left()), Draws(p, nbytes)))
        && |pages.Left()| == Remaining(old(|pages.Left()|), Draws(p, nbytes))
      decreases nbytes > freeBytes
    {
      hide SelfMapped, Mappable, MapEach, Handed, Draws, PageFloor, FreePages.PageStack.Valid, FreePages.PageStack.Left;
      if nbytes <= freeBytes {
        p := kernelHeapEnd;
        kernelHeapEnd := Wrap(kernelHeapEnd + 4 * nbytes);
        freeBytes := Wrap(freeBytes - nbytes);
      } else if nbytes > PAGE_SIZE {
        p := Sbrk(nbytes);
        assert p != SBRK_FAILED;
        kernelHeapEnd := Wrap(p + nbytes);
      } else {
        p := Sbrk(nbytes);
        assert p != SBRK_FAILED;
        freeBytes := Wrap(freeBytes + nbytes);
        kernelHeapEnd := p;
        p := KMalloc(nbytes);
      }
    }

    /** A run of kmalloc: nothing stays set aside between calls, every block starts where the
        bytes handed out before it end, the pages drawn over the run are those of the bytes
        handed out over the run, and the pages mapped are those some request asked for. */
    method KMallocRun(sizes: seq<word>) returns (blocks: seq<word>)
      requires Valid() && freeBytes == 0 && Room(Total(sizes))
      modifies this, pager, pages, pages.list
      ensures Valid() && freeBytes == 0 && vHeapMappedLimit == old(vHeapMappedLimit) + Total(sizes)
      ensures IsLaidOut(blocks, sizes, old(vHeapMappedLimit))
      ensures forall va: word :: RunMaps(old(pager.mem), pager.mem, pager.pd, old(vHeapMappedLimit), sizes, va)
      ensures |pages.Left()| == Remaining(old(|pages.Left()|), PagesTo(vHeapMappedLimit) - PagesTo(old(vHeapMappedLimit)))
    {
      hide SelfMapped, Mappable, Pde, MapEach, Handed, Draws, PageFloor, PagesTo, IsLaidOut, Total,
        RunMaps, FreePages.PageStack.Valid, FreePages.PageStack.Left;
      RunStarts(pager.mem, pager.pd, vHeapMappedLimit, sizes);
      NothingLaidOut(sizes, vHeapMappedLimit);
      blocks := [];
      ghost var start := vHeapMappedLimit;
      PagesMonotone(start, start);
      while |blocks| < |sizes|
        invariant |blocks| <= |sizes| && Valid() && freeBytes == 0
        invariant vHeapMappedLimit == start + Total(sizes[..|blocks|])
        invariant IsLaidOut(blocks, sizes[..|blocks|], start)
        invariant PagesTo(start) <= PagesTo(vHeapMappedLimit)
        invariant |pages.Left()| == Remaining(old(|pages.Left()|), PagesTo(vHeapMappedLimit) - PagesTo(start))
        invariant start + Total(sizes[..|blocks|]) < WORD
        invariant forall va: word :: RunMaps(old(pager.mem), pager.mem, pager.pd, start, sizes[..|blocks|], va)
        invariant forall a: word :: PageFloor(start) <= a < start + Total(sizes) ==> Mappable(pager.mem, pager.pd, a)
      {
        var k := |blocks|;
        TotalSplits(sizes, k);
        ghost var (mem, limit, left) := (pager.mem, vHeapMappedLimit, pages.Left());
        PagesMonotone(start, limit);
        PagesMonotone(limit, limit + sizes[k]);
        var p := KMalloc(sizes[k]);
        ghost var drawn := Handed(left, Draws(limit, sizes[k]));
        RoomStays(mem, pager.pd, limit, sizes[k], drawn);
        NoDraw(mem, pager.pd, limit, sizes[k], drawn);
        ghost var upTo := sizes[..k + 1];
        forall va: word ensures RunMaps(old(pager.mem), pager.mem, pager.pd, start, upTo, va) {
          RunGrows(old(pager.mem), mem, pager.pd, start, sizes, k, drawn, va);
        }
        LaidOutSnoc(blocks, sizes, start, k, p);
        blocks := blocks + [p];
      }
      assert sizes[..|sizes|] == sizes;
    }
  }
}
