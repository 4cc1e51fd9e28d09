/** The stack of free pages built by init_virt_mem and popped by alloc_page. */
module FreePages {
  import opened Words

  const P_KERNEL_STACK_ADDR: int := 0x3000
  const KERNEL_STACK_SIZE: int := 0x1000
  const P_START_FREE_RAM: int := 0x9000

  datatype Region = Region(start: int, end: int)

  /** The hardware's reserved regions, ended by one whose end is 0. */
  const RESERVED: seq<Region> := [
    Region(0x00000, 0x004FF), Region(0x9FC00, 0x9FFFF), Region(0xA0000, 0xBFFFF), Region(0xC0000, 0xC7FFF),
    Region(0xC8000, 0xEFFFF), Region(0xF0000, 0xFFFFF), Region(0, 0)]

  const REGIONS: nat := 6

  /** The comparison the code makes: strictly inside. */
  predicate Inside(a: int, r: Region) {
    r.start < a < r.end - 1
  }

  predicate InReserved(a: int) {
    exists j :: 0 <= j < REGIONS && Inside(a, RESERVED[j])
  }

  /** A page goes on the list when it is not below the kernel's tables and its first byte
      is not strictly inside a reserved region. */
  predicate IsFree(a: int) {
    a >= P_START_FREE_RAM && !InReserved(a)
  }

  /** The free pages among the first n. */
  function FreeList(n: nat): (s: seq<int>)
    ensures |s| <= (if n <= 9 then 0 else n - 9)
  {
    if n == 0 then []
    else FreeList(n - 1) + if IsFree((n - 1) * PAGE_SIZE) then [(n - 1) * PAGE_SIZE] else []
  }

  /** Pages whose first byte lies below the given amount of memory. */
  function PagesBelow(total: nat): nat {
    (total + PAGE_SIZE - 1) / PAGE_SIZE
  }

  /** After k rounds, in 32 bits, the address is no longer below the amount of memory. */
  predicate ListingDone(total: word, k: nat) {
    Wrap(k * PAGE_SIZE) >= total
  }

  /** The loop over memory ends exactly when memory ends below the last page of the address
      space; otherwise the address wraps round and everything is listed again. */
  lemma ListingEndsIff(total: word)
    ensures (exists k: nat :: ListingDone(total, k)) <==> total <= WORD - PAGE_SIZE
  {
    assert ListingDone(total, PagesBelow(total)) <==> total <= WORD - PAGE_SIZE by {
      assert PagesBelow(total) * PAGE_SIZE >= total;
    }
    forall k: nat | ListingDone(total, k) ensures total <= WORD - PAGE_SIZE {
      WrapPages(k);
    }
  }

  lemma WrapMultiple(q: int, x: int)
    requires 0 <= x < WORD
    ensures Wrap(q * WORD + x) == x
  {
  }

  lemma WrapPages(k: nat)
    ensures Wrap(k * PAGE_SIZE) <= WORD - PAGE_SIZE
  {
    var (q, p) := (k as int / 0x10_0000, k as int % 0x10_0000);
    assert k * PAGE_SIZE == q * WORD + p * PAGE_SIZE;
    WrapMultiple(q, p * PAGE_SIZE);
  }

  predicate Ascending(s: seq<int>) {
    forall i, j :: 0 <= i < j < |s| ==> s[i] < s[j]
  }

  /** The list: exactly the free pages, in strictly ascending order. */
  lemma {:induction false} FreeListIs(n: nat)
    ensures Ascending(FreeList(n))
    ensures forall a :: a in FreeList(n) <==> 0 <= a < n * PAGE_SIZE && a % PAGE_SIZE == 0 && IsFree(a)
  {
    if n > 0 {
      FreeListIs(n - 1);
      var last := (n - 1) * PAGE_SIZE;
      var s := FreeList(n - 1);
      forall i | 0 <= i < |s| ensures s[i] < last {
        assert s[i] in s;
      }
      forall a | 0 <= a < n * PAGE_SIZE && a % PAGE_SIZE == 0 ensures a < last || a == last {
      }
    }
  }

  /** Every listed page is aligned, above the kernel's tables, below the end of memory, and
      not strictly inside a reserved region; and the list fits its 1/1024th of memory. */
  lemma FreeListSafe(total: nat)
    requires total > P_START_FREE_RAM
    ensures var s := FreeList(PagesBelow(total));
      && Ascending(s) && 4 * |s| <= total / 1024
      && (forall a :: a in s ==> a % PAGE_SIZE == 0 && P_START_FREE_RAM <= a < total && !InReserved(a))
  {
    FreeListIs(PagesBelow(total));
  }

  /** Being strictly inside is not the same as overlapping: the first pages of four regions
      and the page that holds the EBDA are listed although they belong to the hardware. */
  lemma ListedHardwarePages(a: int)
    requires a % PAGE_SIZE == 0 && a >= P_START_FREE_RAM
    ensures IsFree(a) && (exists j :: 0 <= j < REGIONS && a <= RESERVED[j].end && RESERVED[j].start < a + PAGE_SIZE)
      <==> a in {0x9F000, 0xA0000, 0xC0000, 0xC8000, 0xF0000}
  {
    var p := a / PAGE_SIZE;
    assert a == p * PAGE_SIZE;
    if IsFree(a) && (exists j :: 0 <= j < REGIONS && a <= RESERVED[j].end && RESERVED[j].start < a + PAGE_SIZE) {
      var j :| 0 <= j < REGIONS && a <= RESERVED[j].end && RESERVED[j].start < a + PAGE_SIZE;
      assert !Inside(a, RESERVED[j]);
    }
    if a in {0x9F000, 0xA0000, 0xC0000, 0xC8000, 0xF0000} {
      assert RESERVED[1].start < 0x9F000 + PAGE_SIZE && 0xA0000 == RESERVED[2].start;
      assert 0xC0000 == RESERVED[3].start && 0xC8000 == RESERVED[4].start && 0xF0000 == RESERVED[5].start;
    }
  }

  /** The list, page by page: from 0x9000 on, but for what is strictly inside the hardware's
      regions between 640K and 1M, up to the end of memory. */
  lemma FreePagesAre(total: nat, a: int)
    requires total > 0x9000
    ensures a in FreeList(PagesBelow(total)) <==>
      && a % 0x1000 == 0 && 0x9000 <= a < total
      && (a <= 0xA_0000 || a == 0xC_0000 || a == 0xC_8000 || a == 0xF_0000 || a >= 0x10_0000)
  {
    FreeListIs(PagesBelow(total));
    if a % 0x1000 == 0 {
      WholePages(total, a / 0x1000);
      if 0x9000 <= a {
        FreePage(a / 0x1000);
      }
    }
    hide FreeList, IsFree, InReserved, PagesBelow;
  }

  lemma WholePages(total: nat, p: int)
    ensures p * 0x1000 < PagesBelow(total) * 0x1000 <==> p * 0x1000 < total
    ensures IsFree(p * 0x1000) ==> p * 0x1000 >= 0x9000
  {
  }

  lemma FreePage(p: int)
    requires 9 <= p
    ensures IsFree(p * 0x1000) <==> p <= 0xA0 || p == 0xC0 || p == 0xC8 || p == 0xF0 || p >= 0x100
  {
    var a := p * 0x1000;
    if 0xA0 < p < 0xC0 {
      assert Inside(a, RESERVED[2]);
    } else if 0xC0 < p < 0xC8 {
      assert Inside(a, RESERVED[3]);
    } else if 0xC8 < p < 0xF0 {
      assert Inside(a, RESERVED[4]);
    } else if 0xF0 < p < 0x100 {
      assert Inside(a, RESERVED[5]);
    }
  }

  /** The first page above the tables is always free, so the list is never empty. */
  lemma {:induction false} FirstFree(n: nat)
    requires n > 9
    ensures |FreeList(n)| > 0 && FreeList(n)[0] == P_START_FREE_RAM
  {
    if n > 10 {
      FirstFree(n - 1);
    } else {
      assert RESERVED[0].end == 0x4FF;
      assert FreeList(9) == [];
    }
  }

  /** The number of regions, counted up to the end marker. */
  method CountRegions() returns (i: nat)
    ensures i == REGIONS
  {
    i := 0;
    while RESERVED[i].end > 0
      invariant i <= REGIONS
      decreases REGIONS - i
    {
      i := i + 1;
    }
  }

  /** The scan of the reserved regions for one page. */
  method ScanRegions(address: int) returns (used: bool)
    ensures used <==> InReserved(address)
  {
    used := false;
    var j := 0;
    while RESERVED[j].end > 0
      invariant 0 <= j <= REGIONS && !used
      invariant forall k :: 0 <= k < j ==> !Inside(address, RESERVED[k])
      decreases REGIONS - j
    {
      if RESERVED[j].start < address && address < RESERVED[j].end - 1 {
        used := true;
        break;
      }
      j := j + 1;
    }
  }

  /** Whether the loop lists a page: the short cut above the kernel's own memory, the kernel
      stack, the scan, and the kernel's tables. */
  method Listed(address: word, total: word, freeStart: word, last: nat) returns (add: bool)
    requires last == REGIONS - 1 && freeStart >= RESERVED[5].end
    requires address % PAGE_SIZE == 0 && address < total
    ensures add <==> IsFree(address)
  {
    if freeStart < address && address < total - 1 {
      assert forall j :: 0 <= j < REGIONS ==> RESERVED[j].end <= RESERVED[5].end;
      return true;
    }
    if P_KERNEL_STACK_ADDR < address && address < P_KERNEL_STACK_ADDR + KERNEL_STACK_SIZE - 1 {
      return false;
    }
    var used := false;
    if address < RESERVED[last].end {
      used := ScanRegions(address);
    } else {
      assert forall j :: 0 <= j < REGIONS ==> RESERVED[j].end <= RESERVED[5].end;
    }
    if address < P_START_FREE_RAM {
      return false;
    }
    add := !used;
  }

  lemma ListStart(total: word)
    requires P_START_FREE_RAM < total
    ensures FreeList(0) == [] && PagesBelow(total) > 9
    ensures PagesBelow(total) * PAGE_SIZE >= total
  {
  }

  /** One round of the loop: the list grows by the page when it is free, and has room for it. */
  lemma ListStep(n: nat, total: word)
    requires P_START_FREE_RAM < total && n < PagesBelow(total)
    ensures n * PAGE_SIZE < total && (n + 1 < PagesBelow(total) <==> (n + 1) * PAGE_SIZE < total)
    ensures FreeList(n + 1) == FreeList(n) + if IsFree(n * PAGE_SIZE) then [n * PAGE_SIZE] else []
    ensures |FreeList(n + 1)| <= total / 1024 / 4
  {
  }

  /** freePageList[i++] = address. */
  method Append(list: array<word>, i: word, address: word) returns (next: word)
    requires i < list.Length < WORD
    modifies list
    ensures next == i + 1 && list[..next] == old(list[..i]) + [address]
  {
    list[i] := address;
    next := Wrap(i + 1);
  }

  /** init_virt_mem's loop fills the page list with exactly the free pages, in order, inside
      the memory set aside for it. The loop variable is a 32-bit word: it reaches the end of
      memory only if no page starts in the last 4096 bytes of the address space. */
  method BuildFreeList(list: array<word>, total: word, freeStart: word) returns (entries: word)
    requires P_START_FREE_RAM < total <= WORD - PAGE_SIZE && freeStart >= RESERVED[5].end
    requires list.Length == total / 1024 / 4
    modifies list
    ensures var s := FreeList(PagesBelow(total)); 0 < |s| <= list.Length && list[..|s|] == s && entries == |s| - 1
  {
    hide FreeList, IsFree, InReserved, PagesBelow, Ascending;
    var last := CountRegions();
    last := last - 1;
    ListStart(total);
    var i: word, address: word := 0, 0;
    ghost var n := 0;
    while address < total
      invariant address == n * PAGE_SIZE && n <= PagesBelow(total)
      invariant i == |FreeList(n)| <= list.Length
      invariant list[..i] == FreeList(n)
      decreases PagesBelow(total) - n
    {
      var add := Listed(address, total, freeStart, last);
      if n < PagesBelow(total) {
        ListStep(n, total);
      }
      if add {
        i := Append(list, i, address);
      }
      address := Wrap(address + PAGE_SIZE);
      n := n + 1;
    }
    if n < PagesBelow(total) {
      ListStep(n, total);
    }
    FirstFree(n);
    entries := Wrap(i - 1);
  }

  /** The k-th page handed out from a list: from the top down, then 0 forever. */
  function Nth(s: seq<word>, k: nat): word {
    if k < |s| then s[|s| - 1 - k] else 0
  }

  /** The free-page stack. freePageListEntries is the index of the entry handed out next, so
      the entry at index 0 never is. */
  class PageStack {
    const total: word
    const list: array<word>
    var entries: word

    ghost predicate Valid()
      reads this, list
    {
      entries < list.Length && forall i :: 1 <= i <= entries ==> list[i] > 0
    }

    /** The pages still to be handed out, next one last; none before memory is set up. */
    ghost function Left(): (s: seq<word>)
      reads this, list
      requires Valid()
    {
      if total == 0 then [] else list[1..entries + 1]
    }

    constructor (total: word, list: array<word>, entries: word)
      ensures this.total == total && this.list == list && this.entries == entries
    {
      this.total := total;
      this.list := list;
      this.entries := entries;
    }

    /** alloc_page: 0 when nothing is left, else the last page of the list, which it drops. */
    method AllocPage() returns (page: word)
      requires Valid()
      modifies this, list
      ensures Valid()
      ensures old(Left()) == [] ==> page == 0 && Left() == [] && list[..] == old(list[..])
      ensures old(Left()) != [] ==> page > 0 && old(Left()) == Left() + [page]
      ensures old(Left()) != [] ==> entries == old(entries) - 1 && list[..] == old(list[..])[old(entries) := 0]
      ensures list[0] == old(list[0])
    {
      if total == 0 {
        return 0;
      }
      if entries == 0 {
        return 0;
      }
      page := list[entries];
      if page > 0 {
        list[entries] := 0;
        entries := entries - 1;
      }
    }

    /** A run of n calls without frees: the listed pages from the top down, then 0. */
    method AllocRun(n: nat) returns (pages: seq<word>)
      requires Valid()
      modifies this, list
      ensures Valid() && |pages| == n
      ensures forall k :: 0 <= k < n ==> pages[k] == Nth(old(Left()), k)
      ensures var all := old(Left()); Left() == all[..if n <= |all| then |all| - n else 0]
    {
      pages := [];
      ghost var all := Left();
      while |pages| < n
        invariant Valid() && |pages| <= n
        invariant |Left()| == if |pages| <= |all| then |all| - |pages| else 0
        invariant Left() == all[..|Left()|]
        invariant forall k :: 0 <= k < |pages| ==> pages[k] == Nth(all, k)
      {
        var page := AllocPage();
        pages := pages + [page];
      }
    }
  }

  /** On the list built at boot, the pages handed out are pairwise distinct and descend; each
      is a listed page other than the first; and after the last one only 0 comes back. */
  lemma AllocationsDistinct(total: word, s: seq<word>, j: nat, k: nat)
    requires P_START_FREE_RAM < total && s == FreeList(PagesBelow(total)) && |s| > 0 && j < k
    ensures Nth(s[1..], k) != 0 ==> Nth(s[1..], j) > Nth(s[1..], k)
    ensures Nth(s[1..], k) != 0 ==> Nth(s[1..], k) in s && Nth(s[1..], k) > P_START_FREE_RAM
    ensures k >= |s| - 1 <==> Nth(s[1..], k) == 0
  {
    FreeListIs(PagesBelow(total));
    FirstFree(PagesBelow(total));
    if k < |s| - 1 {
      assert Nth(s[1..], k) == s[|s| - 1 - k] && Nth(s[1..], j) == s[|s| - 1 - j];
      assert s[0] < s[|s| - 1 - k];
    }
  }
}
