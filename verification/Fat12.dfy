/** FAT12 as the boot sector and the kernel loader read it: entry decoding, cluster and
    sector addresses, and cluster chains.

    The packing of 12-bit entries is section 4.1 of the Microsoft FAT specification.
    Shifts and masks of contiguous bits are written as division and remainder.
 */
module Fat12 {
  import opened Words
  import opened Sequences

  type word16 = x: int | 0 <= x < 0x1_0000

  const END_OF_CLUSTER: int := 0xFF8
  const ROOTDIR_ENTRYSIZE: int := 0x20

  function Wrap16(x: int): word16 {
    x % 0x1_0000
  }

  /** The fields of the BIOS parameter block that locate data. */
  datatype Volume = Volume(
    bytesPerSector: word16, sectorsPerCluster: byte, reserved: word16, numberFATs: byte,
    maxRootEntries: word16, sectorsPerFAT: word16, sectorsPerTrack: word16, numberHeads: word16)

  // ----- table entries -----

  /** The entry is stored inside the table. */
  predicate InTable(fat: seq<byte>, c: word16) {
    c + c / 2 + 1 < |fat| && 3 * c < 0x1_0000
  }

  function WordAt(fat: seq<byte>, i: nat): word16
    requires i + 1 < |fat|
  {
    fat[i] as int + 0x100 * fat[i + 1] as int
  }

  /** The loader's decoder: three half-bytes an entry, and the bit shifted out says which half. */
  function LoaderNext(fat: seq<byte>, c: word16): word16
    requires InTable(fat, c)
  {
    var nybbles := Wrap16(3 * c);
    var w := WordAt(fat, nybbles / 2);
    if nybbles % 2 == 1 then w / 0x10 else w % 0x1000
  }

  /** The boot sector's decoder: one and a half bytes an entry, and parity says which half. */
  function BootNext(fat: seq<byte>, c: word16): word16
    requires InTable(fat, c)
  {
    var w := WordAt(fat, Wrap16(c + c / 2));
    if c % 2 == 1 then w / 0x10 else w % 0x1000
  }

  type entry = x: int | 0 <= x < 0x1000

  /** The three bytes two entries share. */
  function First(e: entry): byte {
    e % 0x100
  }

  function Second(e: entry, f: entry): byte {
    e / 0x100 + 0x10 * (f % 0x10)
  }

  function Third(f: entry): byte {
    f / 0x10
  }

  /** Two entries in three bytes; a last one alone in two. */
  function Pack(entries: seq<entry>): (fat: seq<byte>)
    ensures |fat| == |entries| + (|entries| + 1) / 2
  {
    if entries == [] then []
    else if |entries| == 1 then [First(entries[0]), Second(entries[0], 0)]
    else [First(entries[0]), Second(entries[0], entries[1]), Third(entries[1])] + Pack(entries[2..])
  }

  lemma HalvesOf(e: entry, f: entry)
    ensures (First(e) as int + 0x100 * Second(e, f)) % 0x1000 == e
    ensures (Second(e, f) as int + 0x100 * Third(f)) / 0x10 == f
  {
    assert First(e) as int + 0x100 * Second(e, f) == e + 0x1000 * (f % 0x10);
    assert Second(e, f) as int + 0x100 * Third(f) == e / 0x100 + 0x10 * f;
  }

  /** Both decoders read back every entry of a packed table. */
  lemma {:induction false} DecodePacked(entries: seq<entry>, c: word16)
    requires c < |entries| && 3 * c < 0x1_0000
    ensures InTable(Pack(entries), c)
    ensures LoaderNext(Pack(entries), c) == entries[c]
    ensures BootNext(Pack(entries), c) == entries[c]
  {
    hide LoaderNext, WordAt, Pack, First, Second, Third;
    if c < 2 {
      FirstPair(entries, c);
    } else {
      DecodePacked(entries[2..], c - 2);
      PackedTail(entries, c);
    }
    DecodersAgree(Pack(entries), c);
  }

  lemma FirstPair(entries: seq<entry>, c: word16)
    requires c < 2 && c < |entries|
    ensures InTable(Pack(entries), c) && BootNext(Pack(entries), c) == entries[c]
  {
    hide First, Second, Third, BootNext, WordAt;
    var fat := Pack(entries);
    DecodeFirst(fat, entries[0], if |entries| > 1 then entries[1] else 0, c);
  }

  lemma DecodeFirst(fat: seq<byte>, e: entry, f: entry, c: word16)
    requires |fat| >= 2 && fat[0] == First(e) && fat[1] == Second(e, f)
    requires c < 2 && (c == 1 ==> |fat| >= 3 && fat[2] == Third(f))
    ensures InTable(fat, c) && BootNext(fat, c) == if c == 0 then e else f
  {
    hide First, Second, Third;
    HalvesOf(e, f);
    if c == 0 {
      assert BootNext(fat, 0) == WordAt(fat, 0) % 0x1000;
    } else {
      assert BootNext(fat, 1) == WordAt(fat, 1) / 0x10;
    }
  }

  /** Past the first pair, an entry is found three bytes further on. */
  lemma PackedTail(entries: seq<entry>, c: word16)
    requires 2 <= c < |entries|
    ensures var (i, j) := (c + c / 2, c - 2 + (c - 2) / 2);
      && i == j + 3 && 0 <= j && j + 1 < |Pack(entries[2..])| && i + 1 < |Pack(entries)|
      && WordAt(Pack(entries), i) == WordAt(Pack(entries[2..]), j)
  {
    var (rest, j) := (Pack(entries[2..]), c - 2 + (c - 2) / 2);
    assert Pack(entries)[3..] == rest;
    assert Pack(entries)[j + 3] == rest[j] && Pack(entries)[j + 4] == rest[j + 1];
  }

  /** On any table whatever the two decoders agree, and yield 12-bit values. */
  lemma DecodersAgree(fat: seq<byte>, c: word16)
    requires InTable(fat, c)
    ensures LoaderNext(fat, c) == BootNext(fat, c) < 0x1000
  {
    assert 3 * c / 2 == c + c / 2;
    if c % 2 == 1 {
      assert 3 * c == 2 * (c + c / 2) + 1;
    } else {
      assert 3 * c == 2 * (c + c / 2);
    }
  }

  // ----- where clusters are -----

  function RootSectors(v: Volume): nat
    requires v.bytesPerSector > 0
  {
    ROOTDIR_ENTRYSIZE * v.maxRootEntries / v.bytesPerSector
  }

  /** computeVolumeInfo drops the high half of the product before dividing. */
  function LoaderRootSectors(v: Volume): word16
    requires v.bytesPerSector > 0
  {
    Wrap16(ROOTDIR_ENTRYSIZE * v.maxRootEntries) / v.bytesPerSector
  }

  /** The loader's size of the root directory is right exactly below 2048 entries. */
  lemma RootSectorsIff(v: Volume)
    requires v.bytesPerSector > 0
    ensures LoaderRootSectors(v) == RootSectors(v) <==> v.maxRootEntries < 2048
  {
    var (x, b) := (ROOTDIR_ENTRYSIZE * v.maxRootEntries, v.bytesPerSector);
    if v.maxRootEntries >= 2048 {
      Quotients(x, Wrap16(x), b);
    }
  }

  lemma Quotients(x: nat, y: nat, b: nat)
    requires b > 0 && x >= y + b
    ensures x / b > y / b
  {
    Divided(x, b);
    Divided(y, b);
    if x / b <= y / b {
      Scale(x / b, y / b, b);
      assert false;
    }
  }

  lemma Scale(p: int, q: int, b: nat)
    requires p <= q
    ensures b * p <= b * q && p * b <= q * b
  {
  }

  /** The sector where a cluster's data starts, by the layout of the volume. */
  function ClusterSector(v: Volume, c: word16): int
    requires v.bytesPerSector > 0
  {
    (c - 2) * v.sectorsPerCluster + v.reserved + v.numberFATs * v.sectorsPerFAT + RootSectors(v)
  }

  /** The data area starts behind the reserved sectors, the tables and the root directory, and
      the clusters follow one another in it. */
  lemma ClustersTile(v: Volume, c: word16)
    requires v.bytesPerSector > 0 && 2 <= c < 0xFFFF
    ensures ClusterSector(v, 2) == v.reserved + v.numberFATs * v.sectorsPerFAT + 32 * v.maxRootEntries / v.bytesPerSector
    ensures ClusterSector(v, c + 1) == ClusterSector(v, c) + v.sectorsPerCluster
  {
    var s: int := v.sectorsPerCluster;
    assert (c + 1 - 2) * s == (c - 2) * s + s;
  }

  /** What the loader takes for granted about the layout: two tables, a root directory it can
      size. */
  predicate UsualLayout(v: Volume) {
    v.bytesPerSector > 0 && v.sectorsPerCluster > 0 && v.numberFATs == 2 && v.maxRootEntries < 2048
  }

  /** cluster2Logical: an 8-bit multiplication, so only the low byte of the difference counts. */
  function Cluster2Logical(v: Volume, c: word16): word16
    requires v.bytesPerSector > 0
  {
    Wrap16(Wrap16(c - 2) % 0x100 * v.sectorsPerCluster + v.reserved + v.sectorsPerFAT + v.sectorsPerFAT + LoaderRootSectors(v))
  }

  /** Cluster2LBA of the boot sector, from its own first data sector. */
  function Cluster2LBA(v: Volume, c: word16): word16
    requires v.bytesPerSector > 0
  {
    var firstDataSector := Wrap16(Wrap16(v.numberFATs * v.sectorsPerFAT) + v.reserved + RootSectors(v));
    Wrap16(Wrap16(c - 2) % 0x100 * v.sectorsPerCluster + firstDataSector)
  }

  /** cluster2Logical finds a cluster on the disk if and only if it is one of 2 to 257. */
  lemma LogicalRightIff(v: Volume, c: word16)
    requires UsualLayout(v) && c >= 2 && ClusterSector(v, c) < 0x1_0000
    ensures Cluster2Logical(v, c) == ClusterSector(v, c) <==> c <= 257
  {
    hide RootSectors, LoaderRootSectors, Wrap16;
    RootSectorsIff(v);
    assert v.numberFATs * v.sectorsPerFAT == v.sectorsPerFAT + v.sectorsPerFAT;
    var (d, s) := (c - 2, v.sectorsPerCluster);
    var rest := v.reserved + v.sectorsPerFAT + v.sectorsPerFAT + LoaderRootSectors(v);
    LowByteTimes(d, s);
    Small(d);
    Small(d % 0x100 * s + rest);
  }

  lemma Small(x: int)
    requires 0 <= x < 0x1_0000
    ensures Wrap16(x) == x
  {
  }

  lemma LowByteTimes(d: nat, s: nat)
    requires s > 0
    ensures 0 <= d % 0x100 * s <= d * s
    ensures d % 0x100 * s == d * s <==> d < 0x100
  {
    Scale(0, d % 0x100, s);
    Scale(d % 0x100, d, s);
    if d >= 0x100 {
      Scale(d % 0x100 + 1, d, s);
    }
  }

  /** The two loaders address the same sectors when there are two tables and the root
      directory is within range; both conditions hold of the image's own parameter block. */
  lemma AddressesAgree(v: Volume, c: word16)
    requires UsualLayout(v)
    ensures Cluster2LBA(v, c) == Cluster2Logical(v, c)
  {
    hide RootSectors, LoaderRootSectors;
    RootSectorsIff(v);
    var p := Wrap16(c - 2) % 0x100 * v.sectorsPerCluster;
    assert v.numberFATs * v.sectorsPerFAT == v.sectorsPerFAT + v.sectorsPerFAT;
    WrapTwice(p, 2 * v.sectorsPerFAT, v.reserved + RootSectors(v));
  }

  /** Dropping high halves along the way does not change a sum. */
  lemma WrapTwice(p: int, q: int, r: int)
    ensures Wrap16(p + Wrap16(Wrap16(q) + r)) == Wrap16(p + q + r)
  {
  }

  // ----- cylinder, head, sector -----

  datatype CHS = CHS(track: byte, head: byte, sector: byte)

  /** LBA2CHS: two divisions, each keeping the low byte of what it stores. */
  function LBA2CHS(v: Volume, lba: word16): CHS
    requires v.sectorsPerTrack > 0 && v.numberHeads > 0
  {
    var q := lba / v.sectorsPerTrack;
    CHS(q / v.numberHeads % 0x100, q % v.numberHeads % 0x100, (lba % v.sectorsPerTrack % 0x100 + 1) % 0x100)
  }

  /** The sector the BIOS reads at an address. */
  function SectorAt(v: Volume, chs: CHS): int {
    (chs.track * v.numberHeads + chs.head) * v.sectorsPerTrack + chs.sector - 1
  }

  predicate Geometry(v: Volume) {
    0 < v.sectorsPerTrack <= 63 && 0 < v.numberHeads <= 256
  }

  /** The BIOS is asked for the right sector, at a head and a sector number the drive has, if
      and only if the sector is on one of the first 256 tracks. */
  lemma ChsRightIff(v: Volume, lba: word16)
    requires Geometry(v)
    ensures var chs := LBA2CHS(v, lba); 1 <= chs.sector <= v.sectorsPerTrack && chs.head < v.numberHeads
    ensures SectorAt(v, LBA2CHS(v, lba)) == lba <==> lba / v.sectorsPerTrack / v.numberHeads < 0x100
  {
    hide LBA2CHS;
    var (spt, h) := (v.sectorsPerTrack, v.numberHeads);
    ChsFields(v, lba);
    var q := lba / spt;
    var t := q / h;
    Divided(lba, spt);
    Divided(q, h);
    LowByteTimes(t, h);
    var read := t % 0x100 * h + q % h;
    assert read <= q && (read == q <==> t < 0x100);
    Scale(read, q, spt);
    if read < q {
      Scale(read + 1, q, spt);
    }
  }

  lemma ChsFields(v: Volume, lba: word16)
    requires Geometry(v)
    ensures var (chs, q) := (LBA2CHS(v, lba), lba / v.sectorsPerTrack);
      && chs.track == q / v.numberHeads % 0x100 && chs.head == q % v.numberHeads < v.numberHeads
      && chs.sector == lba % v.sectorsPerTrack + 1
  {
    Divided(lba, v.sectorsPerTrack);
    Divided(lba / v.sectorsPerTrack, v.numberHeads);
  }

  lemma Divided(x: nat, b: nat)
    requires b > 0
    ensures x == x / b * b + x % b && x % b < b && x / b >= 0
  {
  }

  // ----- chains -----

  /** The entry of cluster c is another cluster of the file. */
  predicate Follows(fat: seq<byte>, c: word16, next: word16)
    requires InTable(fat, c)
  {
    BootNext(fat, c) == next < END_OF_CLUSTER
  }

  /** Clusters in the order the entries give, not necessarily to the end. */
  ghost predicate IsWalk(fat: seq<byte>, w: seq<word16>) {
    && w != []
    && (forall i :: 0 <= i < |w| ==> InTable(fat, w[i]))
    && (forall i :: 0 <= i < |w| - 1 ==> Follows(fat, w[i], w[i + 1]))
  }

  /** A file's clusters: the entry of each but the last is the next one, and the last one's
      entry marks the end. */
  ghost predicate IsChain(fat: seq<byte>, chain: seq<word16>) {
    IsWalk(fat, chain) && BootNext(fat, chain[|chain| - 1]) >= END_OF_CLUSTER
  }

  /** Where a chain goes on from its k-th cluster. */
  lemma ChainStep(fat: seq<byte>, chain: seq<word16>, k: nat)
    requires IsChain(fat, chain) && k < |chain|
    ensures InTable(fat, chain[k])
    ensures if k + 1 < |chain| then BootNext(fat, chain[k]) == chain[k + 1] < END_OF_CLUSTER
            else BootNext(fat, chain[k]) >= END_OF_CLUSTER
  {
    hide BootNext, InTable;
    if k + 1 < |chain| {
      assert Follows(fat, chain[k], chain[k + 1]);
    }
  }

  /** A cluster has at most one chain. */
  lemma {:induction false} ChainUnique(fat: seq<byte>, a: seq<word16>, b: seq<word16>)
    requires IsChain(fat, a) && IsChain(fat, b) && a[0] == b[0]
    ensures a == b
    decreases |a|
  {
    hide BootNext, InTable;
    if |a| > 1 {
      assert Follows(fat, a[0], a[1]);
    }
    if |b| > 1 {
      assert Follows(fat, b[0], b[1]);
    }
    assert |a| == 1 <==> |b| == 1;
    if |a| > 1 {
      TailChain(fat, a);
      TailChain(fat, b);
      ChainUnique(fat, a[1..], b[1..]);
      assert a == [a[0]] + a[1..] && b == [b[0]] + b[1..];
    }
  }

  lemma TailChain(fat: seq<byte>, a: seq<word16>)
    requires IsChain(fat, a) && |a| > 1
    ensures IsChain(fat, a[1..])
  {
    hide BootNext, InTable, Follows;
    var t := a[1..];
    forall i | 0 <= i < |t| - 1 ensures Follows(fat, t[i], t[i + 1]) {
      var j := i + 1;
      assert Follows(fat, a[j], a[j + 1]);
    }
  }

  /** A chain that ends visits no cluster twice. */
  lemma {:induction false} ChainAcyclic(fat: seq<byte>, a: seq<word16>, i: nat, j: nat)
    requires IsChain(fat, a) && i < j < |a|
    ensures a[i] != a[j]
  {
    if a[i] == a[j] {
      SuffixChain(fat, a, i);
      SuffixChain(fat, a, j);
      ChainUnique(fat, a[i..], a[j..]);
      assert false;
    }
  }

  lemma {:induction false} SuffixChain(fat: seq<byte>, a: seq<word16>, i: nat)
    requires IsChain(fat, a) && i < |a|
    ensures IsChain(fat, a[i..])
    decreases i
  {
    if i > 0 {
      SuffixChain(fat, a, i - 1);
      TailChain(fat, a[i - 1..]);
      assert a[i - 1..][1..] == a[i..];
    } else {
      assert a[0..] == a;
    }
  }

  // ----- when a chain ends -----

  /** Following the entries from c never leaves the table. */
  ghost predicate StaysInTable(fat: seq<byte>, c: word16) {
    && InTable(fat, c)
    && forall w :: IsWalk(fat, w) && w[0] == c ==>
         BootNext(fat, w[|w| - 1]) >= END_OF_CLUSTER || InTable(fat, BootNext(fat, w[|w| - 1]))
  }

  /** A table of 6144 bytes or more has an entry for every 12-bit number. */
  lemma FullTableStays(fat: seq<byte>, c: word16)
    requires |fat| >= 0x1800 && c < 0x1000
    ensures StaysInTable(fat, c)
  {
  }

  /** A walk from the start of a chain stays on it. */
  lemma {:induction false} WalkOnChain(fat: seq<byte>, chain: seq<word16>, w: seq<word16>, i: nat)
    requires IsChain(fat, chain) && IsWalk(fat, w) && w[0] == chain[0] && i < |w|
    ensures i < |chain| && w[i] == chain[i]
  {
    hide BootNext, InTable;
    if i > 0 {
      WalkOnChain(fat, chain, w, i - 1);
      var k := i - 1;
      assert Follows(fat, w[k], w[k + 1]);
      if i < |chain| {
        assert Follows(fat, chain[k], chain[k + 1]);
      }
    }
  }

  /** A sequence of distinct numbers below k is no longer than k. */
  lemma {:induction false} Pigeonhole(w: seq<word16>, k: nat)
    requires Distinct(w) && forall i :: 0 <= i < |w| ==> w[i] < k
    ensures |w| <= k
    decreases k
  {
    if w != [] {
      assert w[0] < k;
      if i :| 0 <= i < |w| && w[i] == k - 1 {
        var rest := w[..i] + w[i + 1..];
        forall j | 0 <= j < |rest| ensures rest[j] < k - 1 {
          assert rest[j] == if j < i then w[j] else w[j + 1];
        }
        Pigeonhole(rest, k - 1);
      } else {
        Pigeonhole(w, k - 1);
      }
    }
  }

  /** All but the first cluster of a walk are 12-bit numbers. */
  lemma WalkBelow(fat: seq<byte>, w: seq<word16>)
    requires IsWalk(fat, w) && Distinct(w)
    ensures |w| <= 0x1000 + 1
  {
    hide BootNext, InTable;
    var rest := w[1..];
    forall i | 0 <= i < |rest| ensures rest[i] < 0x1000 {
      assert Follows(fat, w[i], w[i + 1]);
      assert rest[i] == w[i + 1];
    }
    Pigeonhole(rest, 0x1000);
  }

  /** A walk without repetition goes on to an end or to a cluster it has been at. */
  lemma {:induction false} WalkOn(fat: seq<byte>, w: seq<word16>)
    requires IsWalk(fat, w) && Distinct(w) && StaysInTable(fat, w[0])
    ensures (exists chain :: IsChain(fat, chain) && chain[0] == w[0])
         || (exists v: seq<word16> :: IsWalk(fat, v) && v[0] == w[0] && !Distinct(v))
    decreases 0x1000 + 1 - |w|
  {
    hide BootNext, InTable;
    WalkBelow(fat, w);
    var last := |w| - 1;
    var n := BootNext(fat, w[last]);
    if n >= END_OF_CLUSTER {
      assert IsChain(fat, w);
    } else {
      var v := w + [n];
      assert IsWalk(fat, w) && InTable(fat, n);
      forall i | 0 <= i < |v| - 1 ensures Follows(fat, v[i], v[i + 1]) {
        if i < last {
          assert Follows(fat, w[i], w[i + 1]);
        }
      }
      assert IsWalk(fat, v) && v[0] == w[0];
      if Distinct(v) {
        WalkBelow(fat, v);
        WalkOn(fat, v);
      }
    }
  }

  /** As long as following the entries of a file stays in the table, its chain ends, so that
      loading it does, if and only if following it never comes back to a cluster. */
  lemma ChainEndsIff(fat: seq<byte>, c: word16)
    requires StaysInTable(fat, c)
    ensures (exists chain :: IsChain(fat, chain) && chain[0] == c)
       <==> (forall w: seq<word16> :: IsWalk(fat, w) && w[0] == c ==> Distinct(w))
  {
    hide BootNext, InTable;
    if chain :| IsChain(fat, chain) && chain[0] == c {
      forall w, i, j | IsWalk(fat, w) && w[0] == c && 0 <= i < j < |w| ensures w[i] != w[j] {
        WalkOnChain(fat, chain, w, i);
        WalkOnChain(fat, chain, w, j);
        ChainAcyclic(fat, chain, i, j);
      }
    } else {
      assert IsWalk(fat, [c]);
      WalkOn(fat, [c]);
    }
  }

  // ----- where the boot sector stops -----

  const BOOT_END: word16 := 0xFF0

  /** The clusters the boot sector reads: it stops at any entry from 0xFF0 on. */
  ghost predicate IsBootChain(fat: seq<byte>, chain: seq<word16>) {
    && IsWalk(fat, chain)
    && (forall i :: 0 < i < |chain| ==> chain[i] < BOOT_END)
    && BootNext(fat, chain[|chain| - 1]) >= BOOT_END
  }

  /** The clusters of a are followed by none of the values 0xFF0 to 0xFF7. */
  ghost predicate NoneReserved(fat: seq<byte>, a: seq<word16>)
    requires IsChain(fat, a)
  {
    forall i :: 0 <= i < |a| ==> !(0xFF0 <= BootNext(fat, a[i]) <= 0xFF7)
  }

  /** The boot sector's clusters are the first of the loader's. */
  lemma {:induction false} BootOnChain(fat: seq<byte>, a: seq<word16>, b: seq<word16>, i: nat)
    requires IsChain(fat, a) && IsBootChain(fat, b) && a[0] == b[0] && i < |b|
    ensures i < |a| && b[i] == a[i]
  {
    WalkOnChain(fat, a, b, i);
  }

  /** For a file with a chain, the boot sector stops at its first entry from 0xFF0 on. */
  lemma {:induction false} BootReads(fat: seq<byte>, a: seq<word16>) returns (b: seq<word16>)
    requires IsChain(fat, a)
    ensures IsBootChain(fat, b) && b[0] == a[0]
    decreases |a|
  {
    hide BootNext, InTable;
    if |a| == 1 || BootNext(fat, a[0]) >= BOOT_END {
      b := [a[0]];
    } else {
      TailChain(fat, a);
      assert Follows(fat, a[0], a[1]);
      var t := BootReads(fat, a[1..]);
      b := [a[0]] + t;
      forall i | 0 <= i < |b| - 1 ensures Follows(fat, b[i], b[i + 1]) {
        if i > 0 {
          var j := i - 1;
          assert Follows(fat, t[j], t[j + 1]);
        }
      }
    }
  }

  /** The boot sector, which ends a chain from 0xFF0 on, and the loader, which ends it from
      0xFF8 on, read the same clusters of a file if and only if no entry of its chain lies in
      between; otherwise the boot sector stops early. */
  lemma SameClustersIff(fat: seq<byte>, a: seq<word16>, b: seq<word16>)
    requires IsChain(fat, a) && IsBootChain(fat, b) && a[0] == b[0]
    ensures b <= a
    ensures b == a <==> NoneReserved(fat, a)
  {
    hide BootNext, InTable;
    forall i | 0 <= i < |b| ensures i < |a| && b[i] == a[i] {
      BootOnChain(fat, a, b, i);
    }
    BootOnChain(fat, a, b, |b| - 1);
    assert b == a[..|b|];
    var last := |b| - 1;
    ChainStep(fat, a, last);
    if b == a {
      forall i | 0 <= i < |a| ensures !(0xFF0 <= BootNext(fat, a[i]) <= 0xFF7) {
        ChainStep(fat, a, i);
      }
    } else {
      assert 0xFF0 <= BootNext(fat, a[last]) <= 0xFF7;
    }
  }
}
