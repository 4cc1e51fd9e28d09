/** The kernel loader's file loading: loadFile of klLoadKernel.s over a byte memory. */
module Loader {
  import opened Words
  import opened Fat12

  const FAT_BUFFER: int := 0x3000

  function BytesPerCluster(v: Volume): word16 {
    Wrap16(v.bytesPerSector * v.sectorsPerCluster)
  }

  function TableBytes(v: Volume): word16 {
    Wrap16(v.sectorsPerFAT * v.bytesPerSector)
  }

  /** computeVolumeInfo puts the cluster buffer after the table, as a segment. */
  function ClusterBuffer(v: Volume): word16 {
    Wrap16((TableBytes(v) + FAT_BUFFER) / 0x10)
  }

  /** A volume the loader's sizes are right for: clusters of whole dwords that fit a segment,
      a table of whole paragraphs. */
  predicate Supported(v: Volume) {
    && Geometry(v) && UsualLayout(v)
    && v.bytesPerSector * v.sectorsPerCluster < 0x1_0000 && BytesPerCluster(v) % 4 == 0
    && TableBytes(v) % 0x10 == 0
  }

  /** The disk as one run of bytes: a cluster's data. */
  function ClusterBytes(v: Volume, disk: seq<byte>, c: word16): (data: seq<byte>)
    requires Supported(v) && OnDisk(v, disk, c)
    ensures |data| == BytesPerCluster(v)
  {
    disk[ClusterSector(v, c) * v.bytesPerSector..][..BytesPerCluster(v)]
  }

  /** A cluster the loader can address: within its 8-bit product, on the first 256 tracks,
      and inside the image. */
  predicate OnDisk(v: Volume, disk: seq<byte>, c: word16)
    requires Supported(v)
  {
    && 2 <= c <= 257
    && 0 <= ClusterSector(v, c) < 0x1_0000
    && ClusterSector(v, c) / v.sectorsPerTrack / v.numberHeads < 0x100
    && 0 <= ClusterSector(v, c) * v.bytesPerSector
    && ClusterSector(v, c) * v.bytesPerSector + BytesPerCluster(v) <= |disk|
  }

  ghost predicate AllOnDisk(v: Volume, disk: seq<byte>, chain: seq<word16>)
    requires Supported(v)
  {
    forall i :: 0 <= i < |chain| ==> OnDisk(v, disk, chain[i])
  }

  /** What the file holds: its clusters' data in the order of the chain. */
  function Contents(v: Volume, disk: seq<byte>, chain: seq<word16>): (data: seq<byte>)
    requires Supported(v) && AllOnDisk(v, disk, chain)
  {
    if chain == [] then []
    else
      var k := |chain| - 1;
      Contents(v, disk, chain[..k]) + ClusterBytes(v, disk, chain[k])
  }

  /** The loader finds each of a file's clusters: what it works out for the BIOS names the
      first sector of the cluster. */
  lemma AddressesCluster(v: Volume, disk: seq<byte>, c: word16)
    requires Supported(v) && OnDisk(v, disk, c)
    ensures SectorAt(v, LBA2CHS(v, Cluster2Logical(v, c))) == ClusterSector(v, c)
  {
    LogicalRightIff(v, c);
    ChsRightIff(v, Cluster2Logical(v, c));
  }

  /** The parameter block of the boot image. */
  const KTUX := Volume(0x200, 1, 1, 2, 0xE0, 9, 0x12, 2)

  /** On the boot image every cluster from 2 to 257 can be loaded, from its own sector. */
  lemma KtuxLoads(disk: seq<byte>, c: word16)
    requires |disk| == 0xB40 * 0x200 && 2 <= c <= 257
    ensures Supported(KTUX) && OnDisk(KTUX, disk, c)
    ensures Cluster2Logical(KTUX, c) == Cluster2LBA(KTUX, c) == c + 31
    ensures BytesPerCluster(KTUX) == 512 && 0x10 * ClusterBuffer(KTUX) == 0x3000 + 9 * 512
  {
    assert RootSectors(KTUX) == 14 && ClusterSector(KTUX, c) == c + 31;
    LogicalRightIff(KTUX, c);
    AddressesAgree(KTUX, c);
  }

  lemma NoContents(v: Volume, disk: seq<byte>, chain: seq<word16>)
    requires Supported(v) && AllOnDisk(v, disk, chain)
    ensures Contents(v, disk, chain[..0]) == []
  {
  }

  /** A file's data grows cluster by cluster, up to the whole file. */
  lemma {:induction false} ContentsSnoc(v: Volume, disk: seq<byte>, chain: seq<word16>, k: nat)
    requires Supported(v) && AllOnDisk(v, disk, chain) && k < |chain|
    ensures Contents(v, disk, chain[..k + 1]) == Contents(v, disk, chain[..k]) + ClusterBytes(v, disk, chain[k])
    ensures |Contents(v, disk, chain[..k + 1])| == |Contents(v, disk, chain[..k])| + BytesPerCluster(v) <= |Contents(v, disk, chain)|
    decreases |chain| - k
  {
    hide Supported, OnDisk, ClusterBytes;
    assert chain[..k + 1][..k] == chain[..k];
    if k + 1 < |chain| {
      ContentsSnoc(v, disk, chain, k + 1);
    } else {
      assert chain[..k + 1] == chain;
    }
  }

  /** Memory m holds the data from start on, and is otherwise m0 but for the n bytes at b. */
  ghost predicate Loaded(m0: seq<byte>, m: seq<byte>, b: nat, n: nat, start: nat, data: seq<byte>) {
    && |m0| == |m| && b + n <= start && start + |data| <= |m| && m[start..start + |data|] == data
    && (forall i :: 0 <= i < start && !(b <= i < b + n) ==> m[i] == m0[i])
    && (forall i :: start + |data| <= i < |m| ==> m[i] == m0[i])
  }

  /** Reading n bytes into the buffer and copying them to the end of the data extends it. */
  lemma Grown(m0: seq<byte>, m1: seq<byte>, m2: seq<byte>, m3: seq<byte>, b: nat, n: nat, start: nat, data: seq<byte>, p: nat)
    requires Loaded(m0, m1, b, n, start, data) && |m1| == |m2| == |m3|
    requires p == start + |data| && p + n <= |m1| && m3[p..p + n] == m2[b..b + n]
    requires forall i :: 0 <= i < |m1| && !(p <= i < p + n) ==> m3[i] == m2[i]
    requires forall i :: 0 <= i < |m1| && !(b <= i < b + n) ==> m2[i] == m1[i]
    ensures Loaded(m0, m3, b, n, start, data + m2[b..b + n])
  {
    assert m3[start..p + n] == m3[start..p] + m3[p..p + n];
    assert m3[start..p] == m1[start..p];
  }

  lemma SameBelow(m0: seq<byte>, m: seq<byte>, b: nat, n: nat, start: nat, data: seq<byte>, from: nat)
    requires Loaded(m0, m, b, n, start, data) && from <= b
    ensures m[from..b] == m0[from..b]
  {
  }

  class FileLoader {
    const vol: Volume
    const disk: seq<byte>
    const mem: array<byte>
    var nextCluster: word16
    var memoryPointer: word

    ghost const buffer: int := 0x10 * ClusterBuffer(vol)

    ghost const size: int := BytesPerCluster(vol)

    ghost predicate Valid() {
      Supported(vol) && buffer == FAT_BUFFER + TableBytes(vol) && buffer + size <= mem.Length <= WORD
    }

    ghost function Table(): seq<byte>
      requires Valid()
      reads mem
    {
      mem[FAT_BUFFER..buffer]
    }

    /** Everything but some bytes is as it was. */
    twostate predicate OnlyChanges(from: int, to: int)
      reads mem
    {
      forall i :: 0 <= i < mem.Length && !(from <= i < to) ==> mem[i] == old(mem[i])
    }

    constructor (vol: Volume, disk: seq<byte>, mem: array<byte>)
      ensures this.vol == vol && this.disk == disk && this.mem == mem
    {
      this.vol := vol;
      this.disk := disk;
      this.mem := mem;
      nextCluster := 0;
      memoryPointer := 0;
    }

    /** The BIOS read of one cluster into the buffer. */
    method ReadCluster()
      requires Valid() && OnDisk(vol, disk, nextCluster)
      modifies mem
      ensures mem[buffer..buffer + size] == ClusterBytes(vol, disk, nextCluster)
      ensures OnlyChanges(buffer, buffer + size)
    {
      hide Cluster2Logical, LBA2CHS, SectorAt, ClusterSector;
      var chs := LBA2CHS(vol, Cluster2Logical(vol, nextCluster));
      AddressesCluster(vol, disk, nextCluster);
      var (from, to, n) := (SectorAt(vol, chs) * vol.bytesPerSector, 0x10 * ClusterBuffer(vol), BytesPerCluster(vol));
      forall i | 0 <= i < n {
        mem[to + i] := disk[from + i];
      }
    }

    /** rep movsd: dwords copied upwards, one at a time. */
    method RepMovsd(source: nat, destination: nat, count: nat)
      requires source + 4 * count <= destination && destination + 4 * count <= mem.Length
      modifies mem
      ensures mem[destination..destination + 4 * count] == old(mem[source..source + 4 * count])
      ensures OnlyChanges(destination, destination + 4 * count)
    {
      var (esi, edi, ecx) := (source, destination, count);
      while ecx != 0
        invariant 0 <= ecx <= count && esi == source + 4 * (count - ecx) && edi == destination + 4 * (count - ecx)
        invariant forall i :: destination <= i < edi ==> mem[i] == old(mem[i - destination + source])
        invariant OnlyChanges(destination, edi)
        decreases ecx
      {
        mem[edi], mem[edi + 1], mem[edi + 2], mem[edi + 3] := mem[esi], mem[esi + 1], mem[esi + 2], mem[esi + 3];
        esi, edi, ecx := esi + 4, edi + 4, ecx - 1;
      }
    }

    /** The cluster read goes from the buffer to where the file has grown to. */
    method CopyCluster()
      requires Valid() && buffer + size <= memoryPointer && memoryPointer + size <= mem.Length
      modifies mem
      ensures mem[memoryPointer..memoryPointer + size] == old(mem[buffer..buffer + size])
      ensures OnlyChanges(memoryPointer, memoryPointer + size)
    {
      hide OnlyChanges;
      RepMovsd(0x10 * ClusterBuffer(vol), memoryPointer, BytesPerCluster(vol) / 4);
    }

    /** A little-endian word of the table. */
    method TableWord(bx: word16) returns (ax: word16)
      requires Valid() && FAT_BUFFER + bx + 1 < buffer
      ensures ax == WordAt(Table(), bx)
    {
      ghost var table := Table();
      assert table[bx] == mem[FAT_BUFFER + bx] && table[bx + 1] == mem[FAT_BUFFER + bx + 1];
      ax := mem[FAT_BUFFER + bx] as int + 0x100 * mem[FAT_BUFFER + bx + 1] as int;
    }

    /** The next entry of the chain, from the table in memory. */
    method NextEntry() returns (ax: word16)
      requires Valid() && InTable(Table(), nextCluster)
      ensures ax == BootNext(Table(), nextCluster)
    {
      hide WordAt, BootNext;
      DecodersAgree(Table(), nextCluster);
      var bx := Wrap16(nextCluster * 3);
      var carry := bx % 2;
      bx := bx / 2;
      ax := TableWord(bx);
      if carry == 1 {
        ax := ax / 0x10;
      } else {
        ax := ax % 0x1000;
      }
    }

    /** The read and the copy of one round of loadFile. */
    method LoadBytes(ghost m0: seq<byte>, ghost start: nat, ghost data: seq<byte>)
      requires Valid() && OnDisk(vol, disk, nextCluster)
      requires Loaded(m0, mem[..], buffer, size, start, data) && memoryPointer == start + |data|
      requires memoryPointer + size <= mem.Length
      modifies mem
      ensures Loaded(m0, mem[..], buffer, size, start, data + ClusterBytes(vol, disk, nextCluster))
    {
      hide Supported, OnDisk, ClusterBytes, ClusterBuffer, TableBytes, BytesPerCluster;
      assert buffer + size <= start;
      hide Loaded;
      ghost var (m1, b, n, p) := (mem[..], buffer, size, memoryPointer as int);
      ReadCluster();
      ghost var m2 := mem[..];
      CopyCluster();
      Grown(m0, m1, m2, mem[..], b, n, start, data, p);
    }

    /** One round of loadFile: the data of the current cluster goes where the file has grown to. */
    method LoadCluster(ghost m0: seq<byte>, ghost start: nat, ghost data: seq<byte>)
      requires Valid() && OnDisk(vol, disk, nextCluster)
      requires Loaded(m0, mem[..], buffer, size, start, data) && memoryPointer == start + |data|
      requires memoryPointer + size <= mem.Length && memoryPointer + size < WORD
      modifies this`memoryPointer, mem
      ensures memoryPointer == old(memoryPointer) + size
      ensures Loaded(m0, mem[..], buffer, size, start, data + ClusterBytes(vol, disk, nextCluster))
    {
      hide Supported, OnDisk, ClusterBytes, ClusterBuffer, TableBytes, Loaded;
      LoadBytes(m0, start, data);
      memoryPointer := Wrap(memoryPointer + BytesPerCluster(vol));
    }

    /** loadFile: it ends, and the memory from the destination on holds exactly the clusters of
        the file's chain, in order; nothing else changes but the buffer. */
    method LoadFile(startingCluster: word16, memoryLocation: word, ghost chain: seq<word16>)
      requires Valid() && IsChain(Table(), chain) && chain[0] == startingCluster && AllOnDisk(vol, disk, chain)
      requires buffer + size <= memoryLocation
      requires memoryLocation + |Contents(vol, disk, chain)| <= mem.Length && memoryLocation + |Contents(vol, disk, chain)| < WORD
      modifies this, mem
      ensures Loaded(old(mem[..]), mem[..], buffer, size, memoryLocation, Contents(vol, disk, chain))
      ensures memoryPointer == memoryLocation + |Contents(vol, disk, chain)| && nextCluster == chain[|chain| - 1]
    {
      assert chain != [];
      hide Supported, OnDisk, ClusterBytes, BootNext, InTable, IsChain, Contents, ClusterBuffer, TableBytes;
      ContentsSnoc(vol, disk, chain, 0);
      NoContents(vol, disk, chain);
      ghost var m0 := mem[..];
      ghost var table := Table();
      assert table == m0[FAT_BUFFER..buffer];
      nextCluster := startingCluster;
      memoryPointer := memoryLocation;
      ghost var k := 0;
      assert Loaded(m0, mem[..], buffer, size, memoryLocation, []);
      hide Loaded;
      while true
        invariant 0 <= k < |chain| && nextCluster == chain[k]
        invariant memoryPointer == memoryLocation + |Contents(vol, disk, chain[..k])| <= mem.Length
        invariant Loaded(m0, mem[..], buffer, size, memoryLocation, Contents(vol, disk, chain[..k]))
        decreases |chain| - k
      {
        ContentsSnoc(vol, disk, chain, k);
        LoadCluster(m0, memoryLocation, Contents(vol, disk, chain[..k]));
        SameBelow(m0, mem[..], buffer, size, memoryLocation, Contents(vol, disk, chain[..k + 1]), FAT_BUFFER);
        assert Table() == table;
        ChainStep(table, chain, k);
        var ax := NextEntry();
        k := k + 1;
        if ax >= END_OF_CLUSTER {
          assert k == |chain|;
          break;
        }
        nextCluster := ax;
      }
      assert chain[..k] == chain;
    }
  }
}
