/** kloaderLoadKernel: from the file's chain on the disk to the kernel's image in memory. */
module BootKernel {
  import opened Words
  import opened Elf
  import opened Fat12
  import opened Loader

  // ----- the header in the file -----

  function FileDword(file: seq<byte>, a: nat): word
    requires a + 4 <= |file|
  {
    file[a] as int + 0x100 * file[a + 1] as int + 0x1_0000 * file[a + 2] as int + 0x100_0000 * file[a + 3] as int
  }

  function FileHalf(file: seq<byte>, a: nat): int
    requires a + 2 <= |file|
  {
    file[a] as int + 0x100 * file[a + 1] as int
  }

  function FilePhdr(file: seq<byte>, a: nat): Phdr
    requires a + 32 <= |file|
  {
    Phdr(FileDword(file, a), FileDword(file, a + 4), FileDword(file, a + 8), FileDword(file, a + 12),
         FileDword(file, a + 16), FileDword(file, a + 20), FileDword(file, a + 24), FileDword(file, a + 28))
  }

  /** The file holds an ELF header and two program headers. */
  predicate HasHeaders(file: seq<byte>) {
    |file| >= 0x34 && FileDword(file, 0x1C) + 64 <= |file|
  }

  function FileHeader(file: seq<byte>): Header
    requires HasHeaders(file)
  {
    var table: int := FileDword(file, 0x1C);
    Header(FileDword(file, 0), FileHalf(file, 0x10), FileDword(file, 0x18), FileHalf(file, 0x2C),
           FilePhdr(file, table), FilePhdr(file, table + 32))
  }

  /** Both segments are in the file, and can be placed. */
  predicate Bootable(file: seq<byte>, p: word)
    requires HasHeaders(file)
  {
    var h := FileHeader(file);
    && Placeable(h, p) && h.data.filesz < h.data.memsz
    && h.code.offset + h.code.filesz <= |file| && h.data.offset + h.data.filesz <= |file|
  }

  /** Memory m holds the process image of the file at p. */
  ghost predicate Runs(file: seq<byte>, m: seq<byte>, p: word)
    requires |m| == WORD && HasHeaders(file) && Bootable(file, p)
  {
    var h := FileHeader(file);
    forall va: int :: InCode(h, va) || InData(h, va) || InBss(h, va) ==>
      m[p + (va - h.code.vaddr)] == ImageByte(file, h, va)
  }

  /** The file's bytes are in memory at p. */
  ghost predicate InMemory(k: KernelLoader, file: seq<byte>, p: word)
    requires k.Valid()
    reads k.mem
  {
    p + |file| <= WORD && forall i :: 0 <= i < |file| ==> k.mem[p..][i] == file[i]
  }

  lemma FromSlice(k: KernelLoader, file: seq<byte>, p: word)
    requires k.Valid() && p + |file| <= WORD && k.mem[p..p + |file|] == file
    ensures InMemory(k, file, p)
  {
    assert forall i :: 0 <= i < |file| ==> k.mem[p..][i] == k.mem[p..p + |file|][i];
  }

  lemma SameByte(k: KernelLoader, file: seq<byte>, p: word, a: nat)
    requires k.Valid() && InMemory(k, file, p) && a < |file|
    ensures k.ByteAt(p as int + a) == file[a]
  {
    assert k.mem[p..][a] == file[a];
  }

  lemma SameHalf(k: KernelLoader, file: seq<byte>, p: word, a: nat)
    requires k.Valid() && InMemory(k, file, p) && a + 2 <= |file|
    ensures k.HalfAt(p as int + a) == FileHalf(file, a)
  {
    hide InMemory, KernelLoader.ByteAt;
    SameByte(k, file, p, a);
    SameByte(k, file, p, a + 1);
  }

  lemma SameDword(k: KernelLoader, file: seq<byte>, p: word, a: nat)
    requires k.Valid() && InMemory(k, file, p) && a + 4 <= |file|
    ensures k.DwordAt(p as int + a) == FileDword(file, a)
  {
    hide InMemory, KernelLoader.ByteAt;
    SameByte(k, file, p, a);
    SameByte(k, file, p, a + 1);
    SameByte(k, file, p, a + 2);
    SameByte(k, file, p, a + 3);
  }

  lemma SamePhdr(k: KernelLoader, file: seq<byte>, p: word, a: nat)
    requires k.Valid() && InMemory(k, file, p) && a + 32 <= |file|
    ensures k.PhdrAt(p as int + a) == FilePhdr(file, a)
  {
    hide InMemory, FileDword, KernelLoader.DwordAt;
    SameDword(k, file, p, a);
    SameDword(k, file, p, a + 4);
    SameDword(k, file, p, a + 8);
    SameDword(k, file, p, a + 12);
    SameDword(k, file, p, a + 16);
    SameDword(k, file, p, a + 20);
    SameDword(k, file, p, a + 24);
    SameDword(k, file, p, a + 28);
  }

  lemma SameHeader(k: KernelLoader, file: seq<byte>, p: word)
    requires k.Valid() && InMemory(k, file, p) && HasHeaders(file)
    ensures k.HeaderAt(p) == FileHeader(file)
  {
    hide InMemory, FileDword, FileHalf, FilePhdr, KernelLoader.DwordAt, KernelLoader.HalfAt, KernelLoader.PhdrAt;
    var table: int := FileDword(file, 0x1C);
    SameDword(k, file, p, 0);
    SameHalf(k, file, p, 0x10);
    SameDword(k, file, p, 0x18);
    SameDword(k, file, p, 0x1C);
    SameHalf(k, file, p, 0x2C);
    SamePhdr(k, file, p, table);
    SamePhdr(k, file, p, table + 32);
  }

  lemma BootableIs(file: seq<byte>, p: word)
    requires HasHeaders(file) && Bootable(file, p)
    ensures Placeable(FileHeader(file), p) && FileHeader(file).data.filesz < FileHeader(file).data.memsz
  {
  }

  /** The image over the memory the file was loaded to is the image of the file. */
  lemma ImageOfFile(file: seq<byte>, m: seq<byte>, m': seq<byte>, p: word)
    requires |m| == |m'| == WORD && p + |file| <= WORD && m[p..p + |file|] == file
    requires HasHeaders(file) && Bootable(file, p) && IsImage(m, m', FileHeader(file), p)
    ensures Runs(file, m', p)
  {
    hide FileHeader;
    var h := FileHeader(file);
    BootableIs(file, p);
    forall va: int | InCode(h, va) || InData(h, va) || InBss(h, va)
      ensures m'[p + (va - h.code.vaddr)] == ImageByte(file, h, va)
    {
      assert forall i :: 0 <= i < |file| ==> m[p..p + |file|][i] == m[p..][i];
      assert ImageByte(m[p..], h, va) == ImageByte(file, h, va);
    }
  }

  /** parseELFHeader, and prepareKernel unless it reports an error. */
  method PlaceKernel(kernel: KernelLoader, ghost file: seq<byte>) returns (eax: word)
    requires kernel.Valid() && HasHeaders(file) && InMemory(kernel, file, kernel.pKernelAddress)
    modifies kernel, kernel.mem
    ensures eax == Verdict(FileHeader(file))
    ensures eax > 10 && Bootable(file, kernel.pKernelAddress) ==> Runs(file, kernel.mem[..], kernel.pKernelAddress)
  {
    ghost var p := kernel.pKernelAddress;
    hide FileHeader, HasHeaders, Bootable, Runs, IsImage, Prepared, Verdict, Loadable, Placeable, InMemory, KernelLoader.HeaderAt;
    SameHeader(kernel, file, p);
    eax := kernel.ParseELFHeader();
    if eax > ERR_LAST_ERROR {
      ghost var h := FileHeader(file);
      ProceedsIff(h);
      ghost var m := kernel.mem[..];
      IsSlice(kernel, file, p);
      kernel.PrepareKernel(h);
      if Bootable(file, p) {
        BootableIs(file, p);
        ImageOfFile(file, m, kernel.mem[..], p);
      }
    }
  }

  lemma IsSlice(k: KernelLoader, file: seq<byte>, p: word)
    requires k.Valid() && InMemory(k, file, p)
    ensures p + |file| <= WORD && k.mem[..][p..p + |file|] == file
  {
    assert forall i :: 0 <= i < |file| ==> k.mem[..][p..p + |file|][i] == k.mem[p..][i];
  }

  /** The file named by its first cluster is loaded, checked and put in place: the answer is the
      kernel's end or the first error, and for a bootable kernel memory holds its image. */
  method LoadKernel(loader: FileLoader, kernel: KernelLoader, start: word16, ghost chain: seq<word16>) returns (eax: word)
    requires loader.Valid() && kernel.Valid() && loader.mem == kernel.mem
    requires IsChain(loader.Table(), chain) && chain[0] == start && AllOnDisk(loader.vol, loader.disk, chain)
    requires loader.buffer + loader.size <= kernel.pKernelAddress
    requires kernel.pKernelAddress + |Contents(loader.vol, loader.disk, chain)| < WORD
    requires HasHeaders(Contents(loader.vol, loader.disk, chain))
    modifies loader, kernel, loader.mem
    ensures var (file, p) := (Contents(loader.vol, loader.disk, chain), kernel.pKernelAddress);
      && eax == Verdict(FileHeader(file))
      && (eax > 10 && Bootable(file, p) ==> Runs(file, kernel.mem[..], p))
  {
    hide FileHeader, HasHeaders, Bootable, Runs, Verdict, InMemory, Supported, OnDisk, Contents, IsChain;
    ghost var file := Contents(loader.vol, loader.disk, chain);
    loader.LoadFile(start, kernel.pKernelAddress, chain);
    FromSlice(kernel, file, kernel.pKernelAddress);
    eax := PlaceKernel(kernel, file);
  }

  /** For a kernel linked at its virtual base and loaded at its physical one: every byte of the
      image is where virt2Phys says, and virt2Phys of the answer is the first byte after it. */
  lemma KernelInPlace(file: seq<byte>, m: seq<byte>, va: word)
    requires |m| == WORD && HasHeaders(file) && Bootable(file, KERNEL_PHYSICAL) && Runs(file, m, KERNEL_PHYSICAL)
    requires var h := FileHeader(file);
      h.code.vaddr == KERNEL_VIRTUAL && h.data.vaddr + h.data.memsz < WORD && (InCode(h, va) || InData(h, va) || InBss(h, va))
    ensures var h := FileHeader(file);
      && m[Virt2Phys(va)] == ImageByte(file, h, va)
      && Virt2Phys(va) < Virt2Phys(KernelEnd(h)) == KERNEL_PHYSICAL + (h.data.vaddr - h.code.vaddr) + h.data.memsz
  {
    hide FileHeader, ImageByte, Virt2Phys;
    EndIsAfterBss(FileHeader(file), va);
  }
}
