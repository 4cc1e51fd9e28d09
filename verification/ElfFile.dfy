/** ELF files from the writing side: a file laid out as figures 4-3 and 5-1 of the System V
    gABI have it is read back as the header it was written from, and loaded or refused for
    what that header says.
 */
module ElfFile {
  import opened Words
  import opened Elf
  import opened BootKernel

  type Bytes = seq<byte>

  function Half(x: int): (s: Bytes)
    requires 0 <= x < 0x1_0000
    ensures |s| == 2
  {
    [x % 0x100, x / 0x100]
  }

  function Dword(x: word): (s: Bytes)
    ensures |s| == 4
  {
    [x % 0x100, x / 0x100 % 0x100, x / 0x1_0000 % 0x100, x / 0x100_0000]
  }

  /** p_type, p_offset, p_vaddr, p_paddr, p_filesz, p_memsz, p_flags, p_align. */
  function PhdrBytes(p: Phdr): (s: Bytes)
    ensures |s| == 32
  {
    Dword(p.kind) + (Dword(p.offset) + (Dword(p.vaddr) + (Dword(p.paddr) +
      (Dword(p.filesz) + (Dword(p.memsz) + (Dword(p.flags) + Dword(p.align)))))))
  }

  /** The fields of the ELF header that say nothing to the loader: e_ident behind the magic number;
      e_machine and e_version; e_shoff, e_flags, e_ehsize and e_phentsize; e_shentsize, e_shnum and
      e_shstrndx. */
  datatype Others = Others(ident: Bytes, machine: Bytes, sections: Bytes, tail: Bytes)

  predicate OthersOk(o: Others) {
    |o.ident| == 12 && |o.machine| == 6 && |o.sections| == 12 && |o.tail| == 6
  }

  /** The magic number, e_ident, e_type, e_machine, e_version, e_entry, e_phoff, e_shoff to
      e_phentsize, e_phnum, and the rest. */
  function HeaderBytes(h: Header, o: Others, phoff: word): (s: Bytes)
    requires OthersOk(o) && 0 <= h.kind < 0x1_0000 && 0 <= h.segments < 0x1_0000
    ensures |s| == 52
  {
    Dword(h.magic) + (o.ident + (Half(h.kind) + (o.machine + (Dword(h.entry) +
      (Dword(phoff) + (o.sections + (Half(h.segments) + o.tail)))))))
  }

  /** A whole file: the header, the program headers some way behind it, and what follows. */
  function FileBytes(h: Header, o: Others, gap: Bytes, rest: Bytes): Bytes
    requires OthersOk(o) && 0 <= h.kind < 0x1_0000 && 0 <= h.segments < 0x1_0000 && 52 + |gap| < WORD
  {
    HeaderBytes(h, o, 52 + |gap|) + (gap + (PhdrBytes(h.code) + (PhdrBytes(h.data) + rest)))
  }

  /** The bytes s stand at a. */
  predicate Stands(file: Bytes, a: nat, s: Bytes) {
    a + |s| <= |file| && file[a..a + |s|] == s
  }

  lemma Split(file: Bytes, a: nat, s: Bytes, t: Bytes)
    requires Stands(file, a, s + t)
    ensures Stands(file, a, s) && Stands(file, a + |s|, t)
  {
    assert file[a..a + |s|] == file[a..a + |s + t|][..|s|] == s;
    assert file[a + |s|..a + |s| + |t|] == file[a..a + |s + t|][|s|..] == t;
  }

  lemma ReadsDword(file: Bytes, a: nat, x: word)
    requires Stands(file, a, Dword(x))
    ensures a + 4 <= |file| && FileDword(file, a) == x
  {
    var s := file[a..a + 4];
    assert file[a] == s[0] && file[a + 1] == s[1] && file[a + 2] == s[2] && file[a + 3] == s[3];
    FourBytes(x);
  }

  lemma FourBytes(x: word)
    ensures x == x % 0x100 + 0x100 * (x / 0x100 % 0x100) + 0x1_0000 * (x / 0x1_0000 % 0x100) + 0x100_0000 * (x / 0x100_0000)
  {
  }

  lemma ReadsHalf(file: Bytes, a: nat, x: int)
    requires 0 <= x < 0x1_0000 && Stands(file, a, Half(x))
    ensures a + 2 <= |file| && FileHalf(file, a) == x
  {
    var s := file[a..a + 2];
    assert file[a] == s[0] && file[a + 1] == s[1];
  }

  lemma ReadsPhdr(file: Bytes, a: nat, p: Phdr)
    requires Stands(file, a, PhdrBytes(p))
    ensures a + 32 <= |file| && FilePhdr(file, a) == p
  {
    hide Stands, Dword, FileDword;
    assert a + 32 <= |file| by {
      StandsInside(file, a, PhdrBytes(p));
    }
    var t7 := Dword(p.align);
    var t6 := Dword(p.flags) + t7;
    var t5 := Dword(p.memsz) + t6;
    var t4 := Dword(p.filesz) + t5;
    var t3 := Dword(p.paddr) + t4;
    var t2 := Dword(p.vaddr) + t3;
    var t1 := Dword(p.offset) + t2;
    Split(file, a, Dword(p.kind), t1);
    Split(file, a + 4, Dword(p.offset), t2);
    Split(file, a + 8, Dword(p.vaddr), t3);
    Split(file, a + 12, Dword(p.paddr), t4);
    Split(file, a + 16, Dword(p.filesz), t5);
    Split(file, a + 20, Dword(p.memsz), t6);
    Split(file, a + 24, Dword(p.flags), t7);
    ReadsDword(file, a, p.kind);
    ReadsDword(file, a + 4, p.offset);
    ReadsDword(file, a + 8, p.vaddr);
    ReadsDword(file, a + 12, p.paddr);
    ReadsDword(file, a + 16, p.filesz);
    ReadsDword(file, a + 20, p.memsz);
    ReadsDword(file, a + 24, p.flags);
    ReadsDword(file, a + 28, p.align);
  }

  lemma StandsInside(file: Bytes, a: nat, s: Bytes)
    requires Stands(file, a, s)
    ensures a + |s| <= |file|
  {
  }

  lemma ReadsElfHeader(file: Bytes, h: Header, o: Others, phoff: word)
    requires OthersOk(o) && 0 <= h.kind < 0x1_0000 && 0 <= h.segments < 0x1_0000
    requires Stands(file, 0, HeaderBytes(h, o, phoff))
    ensures |file| >= 52 && FileDword(file, 0) == h.magic && FileHalf(file, 0x10) == h.kind
    ensures FileDword(file, 0x18) == h.entry && FileDword(file, 0x1C) == phoff && FileHalf(file, 0x2C) == h.segments
  {
    hide Stands, Dword, Half, FileDword, FileHalf;
    StandsInside(file, 0, HeaderBytes(h, o, phoff));
    var t7 := Half(h.segments) + o.tail;
    var t6 := o.sections + t7;
    var t5 := Dword(phoff) + t6;
    var t4 := Dword(h.entry) + t5;
    var t3 := o.machine + t4;
    var t2 := Half(h.kind) + t3;
    var t1 := o.ident + t2;
    Split(file, 0, Dword(h.magic), t1);
    Split(file, 4, o.ident, t2);
    Split(file, 16, Half(h.kind), t3);
    Split(file, 18, o.machine, t4);
    Split(file, 24, Dword(h.entry), t5);
    Split(file, 28, Dword(phoff), t6);
    Split(file, 32, o.sections, t7);
    Split(file, 44, Half(h.segments), o.tail);
    ReadsDword(file, 0, h.magic);
    ReadsHalf(file, 16, h.kind);
    ReadsDword(file, 24, h.entry);
    ReadsDword(file, 28, phoff);
    ReadsHalf(file, 44, h.segments);
  }

  /** Reading a file gives back the header it was written from. */
  lemma FileReadsBack(h: Header, o: Others, gap: Bytes, rest: Bytes)
    requires OthersOk(o) && 0 <= h.kind < 0x1_0000 && 0 <= h.segments < 0x1_0000 && 52 + |gap| < WORD
    ensures var file := FileBytes(h, o, gap, rest); HasHeaders(file) && FileHeader(file) == h
  {
    var (file, table) := (FileBytes(h, o, gap, rest), 52 + |gap|);
    var t2 := PhdrBytes(h.data) + rest;
    var t1 := gap + (PhdrBytes(h.code) + t2);
    assert Stands(file, 0, HeaderBytes(h, o, table) + t1) by {
      assert file[0..|file|] == file;
    }
    hide Stands, FileBytes, HeaderBytes, PhdrBytes, FileDword, FileHalf, FilePhdr;
    Split(file, 0, HeaderBytes(h, o, table), t1);
    Split(file, 52, gap, PhdrBytes(h.code) + t2);
    Split(file, table, PhdrBytes(h.code), t2);
    Split(file, table + 32, PhdrBytes(h.data), rest);
    ReadsElfHeader(file, h, o, table);
    ReadsPhdr(file, table, h.code);
    ReadsPhdr(file, table + 32, h.data);
  }

  /** What the loader answers: 5 unless the file starts with 7F 'E' 'L' 'F', 6 unless it is an
      executable, 7 unless it has two segments, 8 if the first has a BSS, 9 unless both are
      aligned to pages, and else the address behind the second in memory. */
  lemma VerdictSays(h: Header)
    ensures Verdict(h) ==
      if Dword(h.magic) != [0x7F, 'E' as int, 'L' as int, 'F' as int] then 5
      else if h.kind != 2 then 6
      else if h.segments != 2 then 7
      else if h.code.memsz != h.code.filesz then 8
      else if h.code.align != 0x1000 || h.data.align != 0x1000 then 9
      else (h.data.vaddr as int + h.data.memsz) % 0x1_0000_0000
  {
    MagicBytes(h.magic);
  }

  lemma MagicBytes(x: word)
    ensures Dword(x) == [0x7F, 'E' as int, 'L' as int, 'F' as int] <==> x == 0x464C_457F
  {
    FourBytes(x);
    if Dword(x) == [0x7F, 'E' as int, 'L' as int, 'F' as int] {
      assert Dword(x)[0] == 0x7F && Dword(x)[1] == 0x45 && Dword(x)[2] == 0x4C && Dword(x)[3] == 0x46;
    }
  }
}
