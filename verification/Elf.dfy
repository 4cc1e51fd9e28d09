/** The kernel image: parseELFHeader and prepareKernel of klLoadKernel.s, over the flat 32-bit
    memory of big real mode.

    Program headers follow chapter 5 of the System V gABI.
 */
module Elf {
  import opened Words
  import opened Copying

  const ELF_MAGIC_NUMBER: word := 0x464C_457F
  const ELF_ET_EXECUTABLE: int := 2
  const ERR_INVALID_ELF: word := 5
  const ERR_NOT_EXEC_ELF: word := 6
  const ERR_NUM_SEGMENTS: word := 7
  const ERR_SEGMENT_LAYOUT: word := 8
  const ERR_SEGMENT_ALIGN: word := 9
  const ERR_LAST_ERROR: word := 10
  const KERNEL_PHYSICAL: word := 0x10_0000
  const KERNEL_VIRTUAL: word := 0xC000_0000

  /** A program header, in the order of its eight dwords. */
  datatype Phdr = Phdr(kind: word, offset: word, vaddr: word, paddr: word, filesz: word, memsz: word, flags: word, align: word)

  /** What the header says: the identification, the object type, the number of segments and
      the first two program headers. */
  datatype Header = Header(magic: word, kind: int, entry: word, segments: int, code: Phdr, data: Phdr)

  /** An image the loader can place. */
  predicate Loadable(h: Header) {
    && h.magic == ELF_MAGIC_NUMBER && h.kind == ELF_ET_EXECUTABLE && h.segments == 2
    && h.code.memsz == h.code.filesz && h.code.align == PAGE_SIZE && h.data.align == PAGE_SIZE
  }

  function KernelEnd(h: Header): word {
    Wrap(h.data.vaddr + h.data.memsz)
  }

  /** The error reported for an image that is not loadable: the first check it fails. */
  function ErrorOf(h: Header): (e: word)
    ensures ERR_INVALID_ELF <= e <= ERR_SEGMENT_ALIGN
  {
    if h.magic != ELF_MAGIC_NUMBER then ERR_INVALID_ELF
    else if h.kind != ELF_ET_EXECUTABLE then ERR_NOT_EXEC_ELF
    else if h.segments != 2 then ERR_NUM_SEGMENTS
    else if h.code.memsz != h.code.filesz then ERR_SEGMENT_LAYOUT
    else ERR_SEGMENT_ALIGN
  }

  /** The one value the caller sees: errors and the kernel's end share it. */
  function Verdict(h: Header): word {
    if Loadable(h) then KernelEnd(h) else ErrorOf(h)
  }

  /** The caller goes on exactly with loadable images whose end is not mistaken for an error. */
  lemma ProceedsIff(h: Header)
    ensures Verdict(h) > ERR_LAST_ERROR <==> Loadable(h) && KernelEnd(h) > ERR_LAST_ERROR
  {
  }

  function Virt2Phys(a: word): word {
    Wrap(a - KERNEL_VIRTUAL + KERNEL_PHYSICAL)
  }

  lemma WrapShift(a: int, b: int, k: int)
    requires Wrap(a) == Wrap(b)
    ensures Wrap(a + k) == Wrap(b + k)
  {
  }

  lemma WrapAgain(a: int, k: int)
    ensures Wrap(Wrap(a) + k) == Wrap(a + k)
  {
  }

  // ----- the image in memory -----

  /** A header whose segments come in the order code, data: they do not overlap in the file or
      in memory, and everything stays in the address space. */
  predicate Ordered(h: Header, p: word) {
    && 0 < h.code.filesz && 0 < h.data.filesz <= h.data.memsz
    && h.code.vaddr <= h.data.vaddr
    && h.code.filesz <= h.data.vaddr - h.code.vaddr
    && h.code.offset + h.code.filesz <= h.data.offset
    && p + h.data.offset + h.data.filesz <= WORD
    && p + (h.data.vaddr - h.code.vaddr) + h.data.memsz < WORD
  }

  /** The data segment moves down, or clear of itself. */
  predicate MovesClear(h: Header) {
    var delta := h.data.vaddr as int - h.code.vaddr;
    delta <= h.data.offset || h.data.offset + h.data.filesz <= delta
  }

  predicate Placeable(h: Header, p: word) {
    Ordered(h, p) && MovesClear(h)
  }

  predicate InCode(h: Header, va: int) {
    h.code.vaddr <= va < h.code.vaddr + h.code.filesz
  }

  predicate InData(h: Header, va: int) {
    h.data.vaddr <= va < h.data.vaddr + h.data.filesz
  }

  predicate InBss(h: Header, va: int) {
    h.data.vaddr + h.data.filesz <= va < h.data.vaddr + h.data.memsz
  }

  /** The byte of the process image at a virtual address, as the program headers define it
      over the bytes of the file. */
  function ImageByte(file: seq<byte>, h: Header, va: int): byte
    requires h.code.offset + h.code.filesz <= |file| && h.data.offset + h.data.filesz <= |file|
    requires InCode(h, va) || InData(h, va) || InBss(h, va)
  {
    if InCode(h, va) then file[h.code.offset + (va - h.code.vaddr)]
    else if InData(h, va) then file[h.data.offset + (va - h.data.vaddr)]
    else 0
  }

  /** How often a loop runs that counts a word down to 0, looking at it after each round. */
  function Rounds(count: word): (n: int)
    ensures 0 < n <= WORD
  {
    if count == 0 then WORD else count
  }

  /** How far an address lies past another, around the end of memory. */
  function Past(start: word, a: word): (d: word) {
    if a >= start then a - start else a as int - start + WORD
  }

  /** The byte reached in round k is the only new one. */
  lemma RoundStep(start: word, edi: word, k: nat)
    requires k < WORD && Past(start, edi) == k
    ensures forall a: word :: Past(start, a) < k + 1 <==> Past(start, a) < k || a == edi
    ensures k + 1 < WORD ==> Past(start, Wrap(edi as int + 1)) == k + 1
  {
  }

  lemma NotPast(start: word, count: word)
    ensures Past(start, start) == 0 && Wrap(count) == count && Rounds(count) > 0
  {
  }

  lemma CountDown(count: word, k: nat)
    requires k < Rounds(count)
    ensures Wrap(Wrap(count as int - k) as int - 1) == Wrap(count as int - (k + 1))
    ensures Wrap(count as int - (k + 1)) == 0 <==> k + 1 == Rounds(count)
  {
  }

  /** m' is m with zeroes from an address on. */
  ghost predicate IsZeroed(m: seq<byte>, m': seq<byte>, start: word, count: word) {
    && |m| == |m'| == WORD
    && forall a: word :: m'[a] == if Past(start, a) < Rounds(count) then 0 else m[a]
  }

  /** The segment-moving loops: copying upwards n times, addresses running around the end of
      memory. */
  function CopyAround(m: seq<byte>, source: word, destination: word, n: nat): (r: seq<byte>)
    requires |m| == WORD
    ensures |r| == WORD
  {
    if n == 0 then m
    else
      var r := CopyAround(m, source, destination, n - 1);
      r[Wrap(destination + (n - 1)) := r[Wrap(source + (n - 1))]]
  }

  lemma AroundStep(m: seq<byte>, source: word, destination: word, n: nat)
    requires |m| == WORD
    ensures CopyAround(m, source, destination, 0) == m
    ensures var r := CopyAround(m, source, destination, n);
      CopyAround(m, source, destination, n + 1) == r[Wrap(destination + n) := r[Wrap(source + n)]]
  {
  }

  /** Within the address space the addresses do not run around. */
  lemma {:induction false} AroundIsForward(m: seq<byte>, source: word, destination: word, n: nat)
    requires |m| == WORD && source + n <= WORD && destination + n <= WORD
    ensures CopyAround(m, source, destination, n) == ForwardCopy(m, source, destination, n)
  {
    if n > 0 {
      AroundIsForward(m, source, destination, n - 1);
      assert Wrap(destination + (n - 1)) == destination + n - 1 && Wrap(source + (n - 1)) == source + n - 1;
    }
  }

  /** The first loop of prepareKernel, whatever the header says. */
  function CodeMoved(m: seq<byte>, p: word, h: Header): (r: seq<byte>)
    requires |m| == WORD
    ensures |r| == WORD
  {
    CopyAround(m, Wrap(p as int + h.code.offset), p, Rounds(h.code.filesz))
  }

  /** The second. */
  function DataMoved(m: seq<byte>, p: word, h: Header): (r: seq<byte>)
    requires |m| == WORD
    ensures |r| == WORD
  {
    var delta := Wrap(h.data.vaddr as int - h.code.vaddr);
    if delta == h.data.offset then m
    else CopyAround(m, Wrap(p as int + h.data.offset), Wrap(delta as int + p), Rounds(h.data.filesz))
  }

  /** All three. */
  function Prepared(m: seq<byte>, p: word, h: Header): (r: seq<byte>)
    requires |m| == WORD
    ensures |r| == WORD
  {
    var delta := Wrap(h.data.vaddr as int - h.code.vaddr);
    Zeroed(DataMoved(CodeMoved(m, p, h), p, h),
           Wrap(p as int + delta + h.data.filesz), Wrap(h.data.memsz as int - h.data.filesz))
  }

  function Zeroed(m: seq<byte>, start: word, count: word): (r: seq<byte>)
    requires |m| == WORD
    ensures |r| == WORD
  {
    seq(WORD, a requires 0 <= a < WORD => if Past(start, a) < Rounds(count) then 0 else m[a])
  }

  lemma NotMoved(m: seq<byte>, at: int, count: int)
    requires |m| == WORD && 0 <= at && at + count <= WORD
    ensures IsMove(m, m, at, at, count)
  {
  }

  /** Memory m' holds the process image of the file at p in m, the code at p itself, and is
      otherwise as before. */
  ghost predicate IsImage(m: seq<byte>, m': seq<byte>, h: Header, p: word)
    requires |m| == |m'| == WORD && Ordered(h, p)
  {
    && (forall va: int :: InCode(h, va) || InData(h, va) || InBss(h, va) ==>
          m'[p + (va - h.code.vaddr)] == ImageByte(m[p..], h, va))
    && (forall i :: 0 <= i < WORD && Untouched(h, p, i) ==> m'[i] == m[i])
  }

  predicate Untouched(h: Header, p: int, i: int) {
    var delta := h.data.vaddr as int - h.code.vaddr;
    i < p || p + h.code.filesz <= i < p + delta || p + delta + h.data.memsz <= i
  }

  /** The addresses prepareKernel works out stay in the address space. */
  lemma Addresses(h: Header, p: word)
    requires Ordered(h, p)
    ensures Wrap(p as int + h.code.offset) == p + h.code.offset
    ensures Wrap(p as int + h.data.offset) == p + h.data.offset
    ensures Wrap(h.data.vaddr as int - h.code.vaddr) == h.data.vaddr - h.code.vaddr
    ensures Wrap(h.data.vaddr as int - h.code.vaddr + p) == p + (h.data.vaddr - h.code.vaddr)
    ensures Wrap(p as int + (h.data.vaddr - h.code.vaddr) + h.data.filesz) == p + (h.data.vaddr - h.code.vaddr) + h.data.filesz
    ensures Wrap(h.data.memsz as int - h.data.filesz) == h.data.memsz - h.data.filesz
  {
  }

  /** Moving the code, moving the data and zeroing the rest make the image. */
  lemma ImagePlaced(m0: seq<byte>, m1: seq<byte>, m2: seq<byte>, m3: seq<byte>, h: Header, p: word)
    requires Ordered(h, p) && h.data.filesz < h.data.memsz
    requires |m0| == |m1| == |m2| == WORD && IsMove(m0, m1, p + h.code.offset, p, h.code.filesz)
    requires IsMove(m1, m2, p + h.data.offset, p + (h.data.vaddr - h.code.vaddr), h.data.filesz)
    requires IsZeroed(m2, m3, p + (h.data.vaddr - h.code.vaddr) + h.data.filesz, h.data.memsz - h.data.filesz)
    ensures IsImage(m0, m3, h, p)
  {
    forall va: int | InCode(h, va) || InData(h, va) || InBss(h, va)
      ensures m3[p + (va - h.code.vaddr)] == ImageByte(m0[p..], h, va)
    {
      var i := p + (va - h.code.vaddr);
      if InCode(h, va) {
        assert Past(p + (h.data.vaddr - h.code.vaddr) + h.data.filesz, i) >= h.data.memsz - h.data.filesz;
        assert m3[i] == m2[i];
        assert 0 <= i < p + (h.data.vaddr - h.code.vaddr);
        assert m2[i] == m1[i];
        assert m1[i] == m0[i - p + (p + h.code.offset)];
      } else if InData(h, va) {
        var j := p + h.data.offset + (va - h.data.vaddr);
        assert m3[i] == m2[i] == m1[j] == m0[j];
      }
    }
    forall i | 0 <= i < WORD && Untouched(h, p, i) ensures m3[i] == m0[i] {
      assert m3[i] == m2[i] == m1[i];
    }
  }

  lemma CodeMoves(m: seq<byte>, p: word, h: Header)
    requires |m| == WORD && Ordered(h, p)
    ensures IsMove(m, CodeMoved(m, p, h), p + h.code.offset, p, h.code.filesz)
  {
    hide IsMove, CopyAround;
    Addresses(h, p);
    hide Wrap;
    AroundMoves(m, p + h.code.offset, p, h.code.filesz);
  }

  lemma DataMoves(m: seq<byte>, p: word, h: Header)
    requires |m| == WORD && Placeable(h, p)
    ensures IsMove(m, DataMoved(m, p, h), p + h.data.offset, p + (h.data.vaddr - h.code.vaddr), h.data.filesz)
  {
    hide IsMove, CopyAround;
    Addresses(h, p);
    hide Wrap;
    AroundMoves(m, p + h.data.offset, p + (h.data.vaddr - h.code.vaddr), h.data.filesz);
    NotMoved(m, p + h.data.offset, h.data.filesz);
  }

  lemma RestZeroed(m: seq<byte>, p: word, h: Header)
    requires |m| == WORD && Ordered(h, p)
    ensures IsZeroed(DataMoved(CodeMoved(m, p, h), p, h), Prepared(m, p, h),
                     p + (h.data.vaddr - h.code.vaddr) + h.data.filesz, h.data.memsz - h.data.filesz)
  {
    hide IsZeroed, Zeroed, CodeMoved, DataMoved;
    Addresses(h, p);
    hide Wrap;
    var (start, count) := (p + (h.data.vaddr - h.code.vaddr) + h.data.filesz, h.data.memsz - h.data.filesz);
    ZeroedIs(DataMoved(CodeMoved(m, p, h), p, h), start, count);
  }

  /** With a BSS, what prepareKernel leaves is the image. */
  lemma PreparedIsImage(m: seq<byte>, h: Header, p: word)
    requires |m| == WORD && Placeable(h, p) && h.data.filesz < h.data.memsz
    ensures IsImage(m, Prepared(m, p, h), h, p)
  {
    hide IsMove, IsZeroed, IsImage, CodeMoved, DataMoved, Prepared;
    var m1 := CodeMoved(m, p, h);
    CodeMoves(m, p, h);
    DataMoves(m1, p, h);
    RestZeroed(m, p, h);
    ImagePlaced(m, m1, DataMoved(m1, p, h), Prepared(m, p, h), h, p);
  }

  /** A data segment that moves up into itself repeats its first bytes. */
  lemma DataRepeats(m: seq<byte>, p: word, h: Header)
    requires |m| == WORD && Ordered(h, p) && !MovesClear(h)
    ensures var delta := h.data.vaddr as int - h.code.vaddr; var i := p + 2 * delta - h.data.offset;
      p + delta < i < p + delta + h.data.filesz && DataMoved(m, p, h)[i] == m[p + h.data.offset]
  {
    var (source, delta) := (p + h.data.offset, h.data.vaddr - h.code.vaddr);
    var destination := p + delta;
    var i := 2 * destination - source;
    Addresses(h, p);
    hide CopyAround, ForwardCopy, Wrap;
    AroundIsForward(m, source, destination, h.data.filesz);
    MovesPeriodic(m, source, destination, h.data.filesz, destination - source);
    var r := ForwardCopy(m, source, destination, h.data.filesz);
    assert Repeats(r, i, destination - source) && Repeats(r, destination, destination - source);
  }

  /** Such a move spoils the image of any file whose byte there differs from its first. */
  lemma SpoiledImage(m: seq<byte>, h: Header, p: word)
    requires |m| == WORD && Ordered(h, p) && !MovesClear(h) && h.data.filesz < h.data.memsz
    requires m[p + h.data.offset] != m[p + (h.data.vaddr - h.code.vaddr)]
    ensures !IsImage(m, Prepared(m, p, h), h, p)
  {
    hide CodeMoved, DataMoved, Prepared;
    var (m1, delta) := (CodeMoved(m, p, h), h.data.vaddr - h.code.vaddr);
    CodeMoves(m, p, h);
    DataRepeats(m1, p, h);
    RestZeroed(m, p, h);
    var i := p + 2 * delta - h.data.offset;
    var va := h.data.vaddr + (delta - h.data.offset);
    assert InData(h, va) && !InCode(h, va) && i == p + (va - h.code.vaddr);
    assert Prepared(m, p, h)[i] == DataMoved(m1, p, h)[i] == m1[p + h.data.offset] == m[p + h.data.offset];
    assert ImageByte(m[p..], h, va) == m[p + delta];
  }

  /** Exactly when prepareKernel makes the image, whatever the file and the rest of memory: there
      is a BSS, and the data segment moves down or clear of itself. */
  lemma PreparedIsImageIff(h: Header, p: word)
    requires Ordered(h, p)
    ensures (forall m: seq<byte> :: |m| == WORD ==> IsImage(m, Prepared(m, p, h), h, p))
       <==> h.data.filesz < h.data.memsz && MovesClear(h)
  {
    hide Prepared, IsImage;
    if h.data.filesz == h.data.memsz {
      var m: seq<byte> := seq(WORD, i => 1);
      NothingPrepared(m, h, p);
      NoImageOfZeroes(m, Prepared(m, p, h), h, p);
    } else if !MovesClear(h) {
      var m: seq<byte> := seq(WORD, i => if i == p + h.data.offset then 1 else 0);
      SpoiledImage(m, h, p);
    } else {
      forall m: seq<byte> | |m| == WORD ensures IsImage(m, Prepared(m, p, h), h, p) {
        PreparedIsImage(m, h, p);
      }
    }
  }

  lemma NoImageOfZeroes(m: seq<byte>, m': seq<byte>, h: Header, p: word)
    requires |m| == |m'| == WORD && Ordered(h, p) && m[p + h.code.offset] != 0 && m'[p] == 0
    ensures !IsImage(m, m', h, p)
  {
    assert InCode(h, h.code.vaddr) && ImageByte(m[p..], h, h.code.vaddr) == m[p + h.code.offset];
  }

  lemma AroundMoves(m: seq<byte>, source: word, destination: word, n: nat)
    requires |m| == WORD && source + n <= WORD && destination + n <= WORD
    requires destination <= source || source + n <= destination
    ensures IsMove(m, CopyAround(m, source, destination, n), source, destination, n)
  {
    AroundIsForward(m, source, destination, n);
    MovesIntact(m, source, destination, n);
  }

  lemma ZeroedIs(m: seq<byte>, start: word, count: word)
    requires |m| == WORD
    ensures IsZeroed(m, Zeroed(m, start, count), start, count)
  {
  }

  lemma OnlyZeroed(m: seq<byte>, m': seq<byte>, start: word, count: word)
    requires |m| == WORD && IsZeroed(m, m', start, count)
    ensures m' == Zeroed(m, start, count)
  {
  }

  /** Without one, the zeroing loop clears the whole of memory, whatever the header says. */
  lemma NothingPrepared(m: seq<byte>, h: Header, p: word)
    requires |m| == WORD && h.data.filesz == h.data.memsz
    ensures forall a: word :: Prepared(m, p, h)[a] == 0
  {
  }

  /** The kernel's end as the kernel computes it from the loader's answer is the first byte
      after the BSS in physical memory, and each address of the image is where virt2Phys of
      the kernel says it is. */
  lemma EndIsAfterBss(h: Header, va: word)
    requires Ordered(h, KERNEL_PHYSICAL) && h.code.vaddr == KERNEL_VIRTUAL
    requires h.data.vaddr + h.data.memsz < WORD
    ensures Virt2Phys(va) == Wrap(va - 0xC000_0000 + 0x10_0000)
    ensures Virt2Phys(KernelEnd(h)) == 0x10_0000 + (h.data.vaddr - h.code.vaddr) + h.data.memsz
    ensures InCode(h, va) || InData(h, va) || InBss(h, va) ==>
      Virt2Phys(va) == KERNEL_PHYSICAL + (va - h.code.vaddr) < Virt2Phys(KernelEnd(h))
  {
  }

  class KernelLoader {
    const mem: array<byte>
    const pKernelAddress: word
    var kernelEntryPoint: word
    var elfProgramHeader: word
    var kernelCodeOffset: word
    var kernelCodeVirtAddress: word
    var kernelCodeFileSize: word
    var kernelDataOffset: word
    var kernelDataVirtAddress: word
    var kernelDataFileSize: word
    var kernelDataMemSize: word

    ghost predicate Valid() {
      mem.Length == WORD
    }

    constructor (mem: array<byte>, p: word)
      ensures this.mem == mem && pKernelAddress == p
    {
      this.mem := mem;
      pKernelAddress := p;
      kernelEntryPoint, elfProgramHeader := 0, 0;
      kernelCodeOffset, kernelCodeVirtAddress, kernelCodeFileSize := 0, 0, 0;
      kernelDataOffset, kernelDataVirtAddress, kernelDataFileSize, kernelDataMemSize := 0, 0, 0, 0;
    }

    function ByteAt(a: int): byte
      requires Valid()
      reads mem
    {
      mem[Wrap(a)]
    }

    function HalfAt(a: int): int
      requires Valid()
      reads mem
    {
      ByteAt(a) as int + 0x100 * ByteAt(a + 1) as int
    }

    function DwordAt(a: int): word
      requires Valid()
      reads mem
    {
      ByteAt(a) as int + 0x100 * ByteAt(a + 1) as int + 0x1_0000 * ByteAt(a + 2) as int + 0x100_0000 * ByteAt(a + 3) as int
    }

    function PhdrAt(a: int): Phdr
      requires Valid()
      reads mem
    {
      Phdr(DwordAt(a), DwordAt(a + 4), DwordAt(a + 8), DwordAt(a + 12), DwordAt(a + 16), DwordAt(a + 20), DwordAt(a + 24), DwordAt(a + 28))
    }

    /** The header of the file at an address. */
    function HeaderAt(p: int): Header
      requires Valid()
      reads mem
    {
      var table := p + DwordAt(p + 0x1C);
      Header(DwordAt(p), HalfAt(p + 0x10), DwordAt(p + 0x18), HalfAt(p + 0x2C), PhdrAt(table), PhdrAt(table + 32))
    }

    lemma SameDword(a: int, b: int)
      requires Valid() && Wrap(a) == Wrap(b)
      ensures DwordAt(a) == DwordAt(b)
    {
      hide Wrap;
      WrapShift(a, b, 1);
      WrapShift(a, b, 2);
      WrapShift(a, b, 3);
    }

    /** esi moves on by k bytes. */
    method Advance(esi: word, k: word, ghost base: int, ghost at: int) returns (next: word)
      requires Valid() && esi == Wrap(base + at)
      ensures next == Wrap(base + (at + k)) && DwordAt(next) == DwordAt(base + (at + k))
    {
      next := Wrap(esi + k);
      WrapShift(esi, base + at, k);
      SameDword(next, base + (at + k));
    }

    /** parseELFHeader's walk over one program header, from its start to its alignment field. */
    method ParseSegment(start: word, ghost base: int) returns (offset: word, vaddr: word, filesz: word, memsz: word, align: word)
      requires Valid() && start == Wrap(base)
      ensures var h := PhdrAt(base); offset == h.offset && vaddr == h.vaddr && filesz == h.filesz && memsz == h.memsz && align == h.align
    {
      hide DwordAt, Wrap;
      var esi := Advance(start, 4, base, 0);
      offset := DwordAt(esi);
      esi := Advance(esi, 4, base, 4);
      vaddr := DwordAt(esi);
      esi := Advance(esi, 8, base, 8);
      filesz := DwordAt(esi);
      esi := Advance(esi, 4, base, 16);
      memsz := DwordAt(esi);
      esi := Advance(esi, 8, base, 20);
      align := DwordAt(esi);
    }

    /** The fields prepareKernel uses are those of two program headers. */
    ghost predicate Describes(code: Phdr, data: Phdr)
      reads this
    {
      && kernelCodeOffset == code.offset && kernelCodeVirtAddress == code.vaddr && kernelCodeFileSize == code.filesz
      && kernelDataOffset == data.offset && kernelDataVirtAddress == data.vaddr
      && kernelDataFileSize == data.filesz && kernelDataMemSize == data.memsz
    }

    /** parseELFHeader from the program header table on. */
    method ParseSegments() returns (eax: word)
      requires Valid()
      modifies this
      ensures kernelEntryPoint == old(kernelEntryPoint)
      ensures var table := pKernelAddress as int + old(elfProgramHeader); var (code, data) := (PhdrAt(table), PhdrAt(table + 32));
        && eax == (if code.memsz != code.filesz then ERR_SEGMENT_LAYOUT
                   else if code.align != PAGE_SIZE || data.align != PAGE_SIZE then ERR_SEGMENT_ALIGN
                   else Wrap(data.vaddr + data.memsz))
        && (code.memsz == code.filesz && code.align == PAGE_SIZE ==> Describes(code, data))
    {
      hide PhdrAt, Wrap;
      ghost var table := pKernelAddress as int + elfProgramHeader;
      var esi := Wrap(pKernelAddress as int + elfProgramHeader);
      var memsz, align;
      kernelCodeOffset, kernelCodeVirtAddress, kernelCodeFileSize, memsz, align := ParseSegment(esi, table);
      if memsz != kernelCodeFileSize {
        return ERR_SEGMENT_LAYOUT;
      }
      if align != PAGE_SIZE {
        return ERR_SEGMENT_ALIGN;
      }
      WrapAgain(table, 32);
      esi := Wrap(esi as int + 32);
      kernelDataOffset, kernelDataVirtAddress, kernelDataFileSize, kernelDataMemSize, align := ParseSegment(esi, table + 32);
      if align != PAGE_SIZE {
        return ERR_SEGMENT_ALIGN;
      }
      eax := Wrap(kernelDataVirtAddress + kernelDataMemSize);
    }

    /** parseELFHeader: the result is the kernel's end or the first error, and the fields of a
        loadable image are those of its two program headers. */
    method ParseELFHeader() returns (eax: word)
      requires Valid()
      modifies this
      ensures eax == Verdict(HeaderAt(pKernelAddress))
      ensures var h := HeaderAt(pKernelAddress); Loadable(h) ==> kernelEntryPoint == h.entry && Describes(h.code, h.data)
    {
      hide DwordAt, HalfAt, PhdrAt, Wrap, Describes;
      var p: int := pKernelAddress;
      eax := DwordAt(p);
      if eax != ELF_MAGIC_NUMBER {
        return ERR_INVALID_ELF;
      }
      if HalfAt(p + 0x10) != ELF_ET_EXECUTABLE {
        return ERR_NOT_EXEC_ELF;
      }
      kernelEntryPoint := DwordAt(p + 0x18);
      elfProgramHeader := DwordAt(p + 0x1C);
      if HalfAt(p + 0x2C) != 2 {
        return ERR_NUM_SEGMENTS;
      }
      eax := ParseSegments();
    }

    /** The segment-moving loops, one byte at a time from the bottom up; the count is looked at
        after the first byte. */
    method MoveSegment(source: word, destination: word, count: word)
      requires Valid()
      modifies mem
      ensures mem[..] == CopyAround(old(mem[..]), source, destination, Rounds(count))
    {
      hide CopyAround, Wrap, Rounds;
      ghost var m := mem[..];
      var ecx: word, esi: word, edi: word := count, source, destination;
      ghost var k := 0;
      AroundStep(m, source, destination, 0);
      NotPast(source, count);
      NotPast(source, source);
      NotPast(source, destination);
      while true
        invariant 0 <= k < Rounds(count) && ecx == Wrap(count as int - k)
        invariant esi == Wrap(source + k) && edi == Wrap(destination + k)
        invariant mem[..] == CopyAround(m, source, destination, k)
        decreases Rounds(count) - k
      {
        AroundStep(m, source, destination, k);
        CountDown(count, k);
        WrapAgain(source + k, 1);
        WrapAgain(destination + k, 1);
        mem[edi] := mem[esi];
        esi, edi := Wrap(esi as int + 1), Wrap(edi as int + 1);
        k := k + 1;
        ecx := Wrap(ecx as int - 1);
        if ecx == 0 {
          break;
        }
      }
    }

    /** The zeroing loop. Its count is looked at after the first byte too, so that a count of 0
        runs it once for every byte there is. */
    method ZeroBytes(start: word, count: word)
      requires Valid()
      modifies mem
      ensures IsZeroed(old(mem[..]), mem[..], start, count)
    {
      hide Past, Rounds, Wrap;
      var ecx: word, edi: word := count, start;
      ghost var k := 0;
      NotPast(start, count);
      while true
        invariant 0 <= k < Rounds(count) && ecx == Wrap(count as int - k) && Past(start, edi) == k
        invariant forall a: word :: mem[a] == if Past(start, a) < k then 0 else old(mem[a])
        decreases Rounds(count) - k
      {
        RoundStep(start, edi, k);
        CountDown(count, k);
        mem[edi] := 0;
        edi := Wrap(edi as int + 1);
        k := k + 1;
        ecx := Wrap(ecx as int - 1);
        if ecx == 0 {
          break;
        }
      }
    }

    /** prepareKernel: with a BSS, memory becomes the image of both segments at their virtual
        addresses relative to the code, zeroed to the end of the BSS, and nothing else
        changes; without one, the zeroing loop clears the whole of memory. */
    method PrepareKernel(ghost h: Header)
      requires Valid() && Describes(h.code, h.data)
      modifies this`kernelDataOffset, mem
      ensures mem[..] == Prepared(old(mem[..]), pKernelAddress, h)
      ensures kernelDataOffset == Wrap(h.data.vaddr as int - h.code.vaddr)
      ensures Placeable(h, pKernelAddress) && h.data.filesz < h.data.memsz ==> IsImage(old(mem[..]), mem[..], h, pKernelAddress)
      ensures h.data.filesz == h.data.memsz ==> forall a: word :: mem[a] == 0
    {
      hide IsZeroed, IsImage, Placeable, Wrap, CopyAround, Past, Rounds;
      ghost var m0 := mem[..];
      var p := pKernelAddress;
      MoveSegment(Wrap(p as int + kernelCodeOffset), p, kernelCodeFileSize);
      var delta := Wrap(kernelDataVirtAddress as int - kernelCodeVirtAddress);
      if delta != kernelDataOffset {
        var source := Wrap(p as int + kernelDataOffset);
        kernelDataOffset := delta;
        MoveSegment(source, Wrap(delta as int + p), kernelDataFileSize);
      }
      ghost var m2 := mem[..];
      var ecx := Wrap(kernelDataMemSize as int - kernelDataFileSize);
      var edi := Wrap(p as int + kernelDataOffset + kernelDataFileSize);
      ZeroBytes(edi, ecx);
      OnlyZeroed(m2, mem[..], edi, ecx);
      if h.data.filesz == h.data.memsz {
        NothingPrepared(m0, h, p);
      } else if Placeable(h, p) && h.data.filesz < h.data.memsz {
        PreparedIsImage(m0, h, p);
      }
    }
  }
}
