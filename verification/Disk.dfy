/** The card as a map from LBA to sector, and the views the file system takes of it: the table
    behind the FAT sectors, and the sectors of a file along its chain. */
module Disks {
  import opened Words
  import opened Chains

  type Disk = map<nat, Sector>

  /** Block I/O succeeds: a sector never written reads as zeros. */
  function Rd(d: Disk, lba: nat): Sector {
    if lba in d then d[lba] else Blank()
  }

  function Blocks(d: Disk, lba: nat, count: nat): (r: seq<Sector>)
    ensures |r| == count && forall k :: 0 <= k < count ==> r[k] == Rd(d, lba + k)
  {
    if count == 0 then [] else Blocks(d, lba, count - 1) + [Rd(d, lba + count - 1)]
  }

  /** What FindDrive learns from the boot sector. */
  datatype Geometry = Geometry(
    shape: Shape,
    fatStart: nat,       // first LBA of the first FAT copy
    fatSize: nat,        // sectors per copy
    fatNumber: nat,      // number of copies
    clusterSize: nat,    // sectors per cluster
    rootStart: nat,      // root directory (FAT16: a fixed region; FAT32: a chain)
    rootSectors: nat,
    rootCluster: nat,
    dataStart: nat)
  {
    function PerSector(): (n: nat)
      ensures n > 0
    {
      if shape.fat32 then 128 else 256
    }

    function Entries(): nat { if shape.fat32 then fatSize * 128 else fatSize * 256 }

    /** CLUSTER2SECTOR and CLUSTER2OFFSET. */
    function SectorOf(cluster: nat): nat { if shape.fat32 then cluster / 128 else cluster / 256 }

    function OffsetOf(cluster: nat): (i: nat)
      ensures i < PerSector()
    {
      if shape.fat32 then cluster % 128 else cluster % 256
    }

    predicate Valid() {
      && shape.Valid() && shape.clusterLimit <= Entries()
      && PowerOfTwo(clusterSize)
      && 1 <= fatNumber <= 127 && 1 <= fatSize < WORD - 1
      && 0 < fatStart && FatEnd() <= dataStart
      && dataStart + clusterSize * (shape.clusterLimit - 2) <= WORD
    }

    function FatEnd(): nat { fatStart + fatNumber * fatSize }
  }

  predicate PowerOfTwo(n: nat) { n in {1, 2, 4, 8, 16, 32, 64, 128} }

  // ---------- the FAT sectors ----------

  function GetEntry(g: Geometry, s: Sector, i: nat): nat
    requires i < g.PerSector()
  {
    if g.shape.fat32 then Le32(s, 4 * i) else Le16(s, 2 * i)
  }

  function WithEntry(g: Geometry, s: Sector, i: nat, v: nat): (r: Sector)
    requires i < g.PerSector()
  {
    if g.shape.fat32 then PutLe32(s, 4 * i, v) else PutLe16(s, 2 * i, v)
  }

  lemma WithEntryReads(g: Geometry, s: Sector, i: nat, v: nat, k: nat)
    requires i < g.PerSector() && k < g.PerSector() && v < if g.shape.fat32 then WORD else HALF
    ensures GetEntry(g, WithEntry(g, s, i, v), k) == if k == i then v else GetEntry(g, s, k)
  {
    if g.shape.fat32 {
      PutLe32ReadsBack(s, 4 * i, v);
      if k != i { PutLe32Reads(s, 4 * i, v, 4 * k); }
    } else {
      PutLe16ReadsBack(s, 2 * i, v);
      if k != i { PutLe16Reads(s, 2 * i, v, 2 * k); }
    }
  }

  function TableEntry(g: Geometry, d: Disk, k: nat): nat {
    GetEntry(g, Rd(d, g.fatStart + g.SectorOf(k)), g.OffsetOf(k))
  }

  /** The allocation table as the first FAT copy stores it. */
  function TableOf(g: Geometry, d: Disk): (t: Table)
    ensures |t| == g.Entries()
    ensures forall k {:trigger t[k]} :: 0 <= k < |t| ==> t[k] == TableEntry(g, d, k)
  {
    seq(g.Entries(), k requires 0 <= k => TableEntry(g, d, k))
  }

  /** Byte p of the first FAT copy. */
  function FatByte(g: Geometry, d: Disk, p: nat): Byte { Rd(d, g.fatStart + p / 512)[p % 512] }

  /** Entry k of a FAT32 table is the little-endian number at byte 4k of the copy, and the link in it
      is that number without its four top bits. */
  lemma Fat32Layout(g: Geometry, d: Disk, k: nat)
    requires g.shape.fat32 && k < g.Entries()
    ensures var v := TableOf(g, d)[k];
            && v == FatByte(g, d, 4 * k) + 0x100 * FatByte(g, d, 4 * k + 1) as int
                    + 0x1_0000 * FatByte(g, d, 4 * k + 2) as int + 0x100_0000 * FatByte(g, d, 4 * k + 3) as int
            && v < WORD && g.shape.Link(v) == v - 0x1000_0000 * (v / 0x1000_0000)
  {
    InRow(4, k, 128, 0);
    InRow(4, k, 128, 1);
    InRow(4, k, 128, 2);
    InRow(4, k, 128, 3);
    assert TableOf(g, d)[k] == Le32(Rd(d, g.fatStart + k / 128), 4 * (k % 128));
  }

  /** Entry k of a FAT16 table is the one at byte 2k. */
  lemma Fat16Layout(g: Geometry, d: Disk, k: nat)
    requires !g.shape.fat32 && k < g.Entries()
    ensures var v := TableOf(g, d)[k];
            v == FatByte(g, d, 2 * k) + 0x100 * FatByte(g, d, 2 * k + 1) as int && g.shape.Link(v) == v
  {
    InRow(2, k, 256, 0);
    InRow(2, k, 256, 1);
    assert TableOf(g, d)[k] == Le16(Rd(d, g.fatStart + k / 256), 2 * (k % 256));
  }

  /** Where byte j of entry k is, in a table with n entries of the given width to a sector. */
  lemma InRow(width: nat, k: nat, n: nat, j: nat)
    requires j < width && (width, n) in {(4, 128), (2, 256)}
    ensures (width * k + j) / 512 == k / n && (width * k + j) % 512 == width * (k % n) + j
  {
  }

  predicate InFat(g: Geometry, lba: nat) { g.fatStart <= lba < g.FatEnd() }

  /** Which sector of its FAT copy a FAT sector is. */
  function Slot(g: Geometry, lba: nat): nat
    requires g.Valid() && InFat(g, lba)
  {
    (lba - g.fatStart) % g.fatSize
  }

  function CopyOf(g: Geometry, lba: nat): nat
    requires g.Valid() && InFat(g, lba)
  {
    (lba - g.fatStart) / g.fatSize
  }

  /** All FAT copies agree. */
  ghost predicate Mirrored(g: Geometry, d: Disk)
    requires g.Valid()
  {
    forall a, b {:trigger Slot(g, a), Slot(g, b)} ::
      InFat(g, a) && InFat(g, b) && Slot(g, a) == Slot(g, b) ==> Rd(d, a) == Rd(d, b)
  }

  /** d' is d after sector `index` of every FAT copy was overwritten with s. */
  ghost predicate FatWritten(g: Geometry, d: Disk, d': Disk, index: nat, s: Sector)
    requires g.Valid()
  {
    forall lba :: Rd(d', lba) == if InFat(g, lba) && Slot(g, lba) == index then s else Rd(d, lba)
  }

  ghost predicate OnlyFatChanged(g: Geometry, d: Disk, d': Disk) {
    forall lba :: !InFat(g, lba) ==> Rd(d', lba) == Rd(d, lba)
  }

  lemma PrimarySlot(g: Geometry, index: nat)
    requires g.Valid() && index < g.fatSize
    ensures InFat(g, g.fatStart + index) && Slot(g, g.fatStart + index) == index
  {
    MulMonotone(g.fatSize, 1, g.fatNumber);
    DivModUnique(index, g.fatSize, 0, index);
  }

  lemma CopySlot(g: Geometry, copy: nat, index: nat)
    requires g.Valid() && index < g.fatSize && copy < g.fatNumber
    ensures InFat(g, g.fatStart + copy * g.fatSize + index)
    ensures Slot(g, g.fatStart + copy * g.fatSize + index) == index
    ensures CopyOf(g, g.fatStart + copy * g.fatSize + index) == copy
  {
    RowColumn(g.fatNumber, g.fatSize, copy, index);
    var x := copy * g.fatSize + index;
    assert g.fatStart + copy * g.fatSize + index - g.fatStart == x;
  }

  /** Element `column` of row `row` in a table of `rows` rows. */
  lemma RowColumn(rows: nat, width: nat, row: nat, column: nat)
    requires row < rows && column < width
    ensures 0 <= row * width && row * width + column < rows * width
    ensures (row * width + column) / width == row && (row * width + column) % width == column
  {
    DivModUnique(row * width + column, width, row, column);
    MulMonotone(width, 0, row);
    MulMonotone(width, row + 1, rows);
  }

  /** A FAT sector is found again from its copy number and its slot. */
  lemma SlotCopy(g: Geometry, lba: nat)
    requires g.Valid() && InFat(g, lba)
    ensures CopyOf(g, lba) < g.fatNumber
    ensures lba == g.fatStart + (CopyOf(g, lba)) * g.fatSize + Slot(g, lba)
  {
    var q := CopyOf(g, lba);
    if g.fatNumber <= q { MulMonotone(g.fatSize, g.fatNumber, q); }
  }

  /** Saving a sector in which one entry was changed changes one entry of the table, and copies
      that agreed keep agreeing. */
  lemma FatWrittenTable(g: Geometry, d: Disk, d': Disk, cluster: nat, v: nat)
    requires g.Valid() && cluster < g.Entries()
    requires v < if g.shape.fat32 then WORD else HALF
    requires FatWritten(g, d, d', g.SectorOf(cluster),
               WithEntry(g, Rd(d, g.fatStart + g.SectorOf(cluster)), g.OffsetOf(cluster), v))
    ensures TableOf(g, d') == TableOf(g, d)[cluster := v]
    ensures OnlyFatChanged(g, d, d')
    ensures Mirrored(g, d) ==> Mirrored(g, d')
  {
    forall k | 0 <= k < g.Entries()
      ensures TableOf(g, d')[k] == TableOf(g, d)[cluster := v][k]
    {
      PrimarySlot(g, g.SectorOf(k));
      WithEntryReads(g, Rd(d, g.fatStart + g.SectorOf(cluster)), g.OffsetOf(cluster), v, g.OffsetOf(k));
    }
  }

  ghost predicate FatUnchanged(g: Geometry, d: Disk, d': Disk) {
    forall lba :: InFat(g, lba) ==> Rd(d', lba) == Rd(d, lba)
  }

  /** Sectors outside the FAT do not reach the table or its copies. */
  lemma OutsideFat(g: Geometry, d: Disk, d': Disk)
    requires g.Valid() && FatUnchanged(g, d, d')
    ensures TableOf(g, d') == TableOf(g, d)
    ensures Mirrored(g, d) ==> Mirrored(g, d')
  {
    forall k | 0 <= k < g.Entries()
      ensures TableOf(g, d')[k] == TableOf(g, d)[k]
    {
      PrimarySlot(g, g.SectorOf(k));
    }
  }

  // ---------- the data area ----------

  /** First LBA of a cluster of the data area. */
  function ClusterStart(g: Geometry, cluster: nat): nat
    requires cluster >= 2
  {
    g.dataStart + g.clusterSize * (cluster - 2)
  }

  /** The LBA FileRead and FileWrite compute, in 32-bit arithmetic. */
  function Lba(g: Geometry, cluster: nat, sector: nat): nat
    requires g.clusterSize > 0
  {
    (g.dataStart + g.clusterSize * (cluster - 2) + sector % g.clusterSize) % WORD
  }

  /** For clusters of the volume the address does not wrap and lies in the data area. */
  lemma LbaInData(g: Geometry, cluster: nat, sector: nat)
    requires g.Valid() && 2 <= cluster < g.shape.clusterLimit
    ensures Lba(g, cluster, sector) == ClusterStart(g, cluster) + sector % g.clusterSize
    ensures g.dataStart <= Lba(g, cluster, sector) && !InFat(g, Lba(g, cluster, sector))
  {
    MulMonotone(g.clusterSize, cluster - 1, g.shape.clusterLimit - 2);
    assert g.clusterSize * (cluster - 1) == g.clusterSize * (cluster - 2) + g.clusterSize;
    assert g.clusterSize * (cluster - 2) >= 0 by { MulMonotone(g.clusterSize, 0, cluster - 2); }
  }

  /** Cluster 2 begins the data area, clusters follow one another, and so do the sectors of each. */
  lemma DataLayout(g: Geometry, cluster: nat, sector: nat)
    requires g.Valid() && 2 <= cluster && cluster + 1 < g.shape.clusterLimit && sector < g.clusterSize
    ensures Lba(g, 2, 0) == g.dataStart
    ensures Lba(g, cluster + 1, sector) == Lba(g, cluster, sector) + g.clusterSize
    ensures Lba(g, cluster, sector) == Lba(g, cluster, 0) + sector
  {
    LbaInData(g, 2, 0);
    LbaInData(g, cluster, 0);
    LbaInData(g, cluster, sector);
    LbaInData(g, cluster + 1, sector);
    ClusterStep(g.clusterSize, cluster);
    DivModUnique(sector, g.clusterSize, 0, sector);
    DivModUnique(0, g.clusterSize, 0, 0);
  }

  lemma ClusterStep(size: nat, cluster: nat)
    ensures size * (cluster + 1 - 2) == size * (cluster - 2) + size
  {
  }

  /** File sectors lie behind everything in front of the FAT, and outside the FAT. */
  lemma FileOutsideSystem(g: Geometry, t: Table, c: Chain, n: nat, info: nat)
    requires g.Valid() && g.shape.clusterLimit <= |t| && IsChain(g.shape, t, c) && n / g.clusterSize < |c|
    requires info < g.fatStart
    ensures FileLba(g, c, n) != info && !InFat(g, FileLba(g, c, n))
  {
    LbaInData(g, c[n / g.clusterSize], n);
    MulMonotone(g.fatSize, 0, g.fatNumber);
  }

  /** Distinct (cluster, offset) pairs have distinct addresses. */
  lemma LbaInjective(g: Geometry, c1: nat, s1: nat, c2: nat, s2: nat)
    requires g.Valid() && 2 <= c1 < g.shape.clusterLimit && 2 <= c2 < g.shape.clusterLimit
    requires Lba(g, c1, s1) == Lba(g, c2, s2)
    ensures c1 == c2 && s1 % g.clusterSize == s2 % g.clusterSize
  {
    LbaInData(g, c1, s1);
    LbaInData(g, c2, s2);
    var n := Lba(g, c1, s1) - g.dataStart;
    DivModUnique(n, g.clusterSize, c1 - 2, s1 % g.clusterSize);
    DivModUnique(n, g.clusterSize, c2 - 2, s2 % g.clusterSize);
  }

  /** Sector n of the file on chain c. */
  function FileLba(g: Geometry, c: Chain, n: nat): nat
    requires g.clusterSize > 0 && n / g.clusterSize < |c|
  {
    Lba(g, c[n / g.clusterSize], n)
  }

  function FileSector(g: Geometry, d: Disk, c: Chain, n: nat): Sector
    requires g.clusterSize > 0 && n / g.clusterSize < |c|
  {
    Rd(d, FileLba(g, c, n))
  }

  /** Sectors allocated to a chain. */
  function Capacity(g: Geometry, c: Chain): nat { g.clusterSize * |c| }

  lemma InCapacity(g: Geometry, c: Chain, n: nat)
    requires g.clusterSize > 0
    ensures n < Capacity(g, c) <==> n / g.clusterSize < |c|
  {
    if n / g.clusterSize < |c| {
      MulMonotone(g.clusterSize, n / g.clusterSize + 1, |c|);
    } else {
      MulMonotone(g.clusterSize, |c|, n / g.clusterSize);
    }
  }

  /** Sector numbers of a file never reach 2^32. */
  lemma CapacityFits(g: Geometry, t: Table, c: Chain)
    requires g.Valid() && g.shape.clusterLimit <= |t| && IsChain(g.shape, t, c)
    ensures Capacity(g, c) < WORD
  {
    ChainFits(g.shape, t, c);
    MulMonotone(g.clusterSize, |c|, g.shape.clusterLimit - 2);
  }

  /** Within a cluster consecutive sectors have consecutive addresses. */
  lemma LbaRun(g: Geometry, c: Chain, n: nat, k: nat, t: Table)
    requires g.Valid() && g.shape.clusterLimit <= |t| && IsChain(g.shape, t, c)
    requires n / g.clusterSize < |c| && n % g.clusterSize + k < g.clusterSize
    ensures (n + k) / g.clusterSize == n / g.clusterSize
    ensures FileLba(g, c, n + k) == FileLba(g, c, n) + k
  {
    DivModUnique(n + k, g.clusterSize, n / g.clusterSize, n % g.clusterSize + k);
    LbaInData(g, c[n / g.clusterSize], n);
    LbaInData(g, c[n / g.clusterSize], n + k);
  }

  /** Writing sector n of one file changes that sector of that file and no sector of a file on
      a disjoint chain. */
  lemma WriteIsLocal(g: Geometry, t: Table, d: Disk, c: Chain, n: nat, s: Sector, c': Chain, m: nat)
    requires g.Valid() && g.shape.clusterLimit <= |t| && IsChain(g.shape, t, c) && IsChain(g.shape, t, c')
    requires n / g.clusterSize < |c| && m / g.clusterSize < |c'|
    requires c == c' || Disjoint(c, c')
    ensures FileSector(g, d[FileLba(g, c, n) := s], c', m)
         == if c == c' && m == n then s else FileSector(g, d, c', m)
  {
    if FileLba(g, c, n) == FileLba(g, c', m) {
      SameLbaSameSector(g, t, c, n, c', m);
    }
  }

  lemma SameLbaSameSector(g: Geometry, t: Table, c: Chain, n: nat, c': Chain, m: nat)
    requires g.Valid() && g.shape.clusterLimit <= |t| && IsChain(g.shape, t, c) && IsChain(g.shape, t, c')
    requires n / g.clusterSize < |c| && m / g.clusterSize < |c'|
    requires c == c' || Disjoint(c, c')
    requires FileLba(g, c, n) == FileLba(g, c', m)
    ensures c == c' && n == m
  {
    LbaInjective(g, c[n / g.clusterSize], n, c'[m / g.clusterSize], m);
    SameClusterSamePlace(g.shape, t, c, n / g.clusterSize, c', m / g.clusterSize);
    SameDigits(n, m, g.clusterSize);
  }

  lemma SameClusterSamePlace(g: Shape, t: Table, c: Chain, i: nat, c': Chain, j: nat)
    requires g.Valid() && g.clusterLimit <= |t| && IsChain(g, t, c) && (c == c' || Disjoint(c, c'))
    requires i < |c| && j < |c'| && c[i] == c'[j]
    ensures c == c' && i == j
  {
    ChainAcyclic(g, t, c);
    assert c[i] in c && c'[j] in c';
  }

  lemma SameDigits(n: nat, m: nat, d: nat)
    requires d > 0 && n / d == m / d && n % d == m % d
    ensures n == m
  {
    assert n == d * (n / d) + n % d && m == d * (m / d) + m % d;
  }

  /** lba is no sector of the file on chain c. */
  ghost predicate Foreign(g: Geometry, c: Chain, lba: nat)
    requires g.clusterSize > 0
  {
    forall n :: 0 <= n && n / g.clusterSize < |c| ==> FileLba(g, c, n) != lba
  }

  /** d' is d after `data` was written to the file on chain c from sector `start` on. */
  ghost predicate Wrote(g: Geometry, d: Disk, d': Disk, c: Chain, start: nat, data: seq<Sector>)
    requires g.clusterSize > 0
  {
    SectorsWrote(g, d, d', c, start, data) && ForeignKept(g, d, d', c)
  }

  ghost predicate SectorsWrote(g: Geometry, d: Disk, d': Disk, c: Chain, start: nat, data: seq<Sector>)
    requires g.clusterSize > 0
  {
    forall n {:trigger FileSector(g, d', c, n)} :: 0 <= n && n / g.clusterSize < |c| ==>
      FileSector(g, d', c, n) == if start <= n < start + |data| then data[n - start] else FileSector(g, d, c, n)
  }

  ghost predicate ForeignKept(g: Geometry, d: Disk, d': Disk, c: Chain)
    requires g.clusterSize > 0
  {
    forall lba {:trigger Rd(d', lba)} :: Foreign(g, c, lba) ==> Rd(d', lba) == Rd(d, lba)
  }

  lemma WroteNext(g: Geometry, t: Table, d: Disk, d': Disk, c: Chain, start: nat, data: seq<Sector>, s: Sector)
    requires g.Valid() && g.shape.clusterLimit <= |t| && IsChain(g.shape, t, c)
    requires Wrote(g, d, d', c, start, data) && (start + |data|) / g.clusterSize < |c|
    ensures Wrote(g, d, d'[FileLba(g, c, start + |data|) := s], c, start, data + [s])
  {
    SectorsWroteNext(g, t, d, d', c, start, data, s);
    ForeignStaysKept(g, d, d', c, start + |data|, s);
  }

  lemma SectorsWroteNext(g: Geometry, t: Table, d: Disk, d': Disk, c: Chain, start: nat, data: seq<Sector>, s: Sector)
    requires g.Valid() && g.shape.clusterLimit <= |t| && IsChain(g.shape, t, c)
    requires SectorsWrote(g, d, d', c, start, data) && (start + |data|) / g.clusterSize < |c|
    ensures SectorsWrote(g, d, d'[FileLba(g, c, start + |data|) := s], c, start, data + [s])
  {
    var d'' := d'[FileLba(g, c, start + |data|) := s];
    forall n {:trigger FileSector(g, d'', c, n)} | 0 <= n && n / g.clusterSize < |c|
      ensures FileSector(g, d'', c, n)
           == if start <= n < start + |data + [s]| then (data + [s])[n - start] else FileSector(g, d, c, n)
    {
      WroteNextAt(g, t, d, d', c, start, data, s, n);
    }
  }

  lemma WroteNextAt(g: Geometry, t: Table, d: Disk, d': Disk, c: Chain, start: nat, data: seq<Sector>, s: Sector,
                    n: nat)
    requires g.Valid() && g.shape.clusterLimit <= |t| && IsChain(g.shape, t, c)
    requires SectorsWrote(g, d, d', c, start, data) && (start + |data|) / g.clusterSize < |c| && n / g.clusterSize < |c|
    ensures FileSector(g, d'[FileLba(g, c, start + |data|) := s], c, n)
         == if start <= n < start + |data + [s]| then (data + [s])[n - start] else FileSector(g, d, c, n)
  {
    WriteIsLocal(g, t, d', c, start + |data|, s, c, n);
    assert FileSector(g, d', c, n) == if start <= n < start + |data| then data[n - start] else FileSector(g, d, c, n);
  }

  lemma ForeignStaysKept(g: Geometry, d: Disk, d': Disk, c: Chain, n: nat, s: Sector)
    requires g.clusterSize > 0 && ForeignKept(g, d, d', c) && n / g.clusterSize < |c|
    ensures ForeignKept(g, d, d'[FileLba(g, c, n) := s], c)
  {
    forall lba | Foreign(g, c, lba)
      ensures Rd(d'[FileLba(g, c, n) := s], lba) == Rd(d, lba)
    {
      assert FileLba(g, c, n) != lba && Rd(d', lba) == Rd(d, lba);
    }
  }

  /** Files on disjoint chains, the FAT and everything outside the data area are foreign. */
  lemma OthersAreForeign(g: Geometry, t: Table, c: Chain, c': Chain, m: nat)
    requires g.Valid() && g.shape.clusterLimit <= |t| && IsChain(g.shape, t, c) && IsChain(g.shape, t, c')
    requires Disjoint(c, c') && m / g.clusterSize < |c'|
    ensures Foreign(g, c, FileLba(g, c', m))
  {
    assert c[0] in c;
    forall n | 0 <= n && n / g.clusterSize < |c|
      ensures FileLba(g, c, n) != FileLba(g, c', m)
    {
      if FileLba(g, c, n) == FileLba(g, c', m) { SameLbaSameSector(g, t, c, n, c', m); }
    }
  }

  lemma SystemAreaIsForeign(g: Geometry, t: Table, c: Chain, lba: nat)
    requires g.Valid() && g.shape.clusterLimit <= |t| && IsChain(g.shape, t, c) && lba < g.dataStart
    ensures Foreign(g, c, lba)
  {
    forall n | 0 <= n && n / g.clusterSize < |c|
      ensures FileLba(g, c, n) != lba
    {
      LbaInData(g, c[n / g.clusterSize], n);
    }
  }

  /** The FAT and the data area do not overlap, so table updates leave file sectors alone. */
  lemma FatUpdateKeepsSectors(g: Geometry, t: Table, d: Disk, d': Disk, c: Chain, m: nat)
    requires g.Valid() && g.shape.clusterLimit <= |t| && IsChain(g.shape, t, c)
    requires m / g.clusterSize < |c| && OnlyFatChanged(g, d, d')
    ensures FileSector(g, d', c, m) == FileSector(g, d, c, m)
  {
    LbaInData(g, c[m / g.clusterSize], m);
  }

  /** The file on chain c starts with the first `length` bytes of `data`. */
  ghost predicate HasBytes(g: Geometry, d: Disk, c: Chain, data: seq<Byte>, length: nat)
    requires g.clusterSize > 0
  {
    && length <= |data|
    && forall b :: 0 <= b < length ==>
         b / 512 / g.clusterSize < |c| && FileSector(g, d, c, b / 512)[b % 512] == data[b]
  }

  /** One sector of a file as bytes. */
  lemma SectorBytes(g: Geometry, d: Disk, c: Chain, data: seq<Byte>, n: nat, m: nat)
    requires g.clusterSize > 0 && HasBytes(g, d, c, data, |data|) && 0 < m <= 512 && 512 * n + m <= |data|
    ensures n / g.clusterSize < |c| && FileSector(g, d, c, n)[..m] == data[512 * n..512 * n + m]
  {
    assert (512 * n) / 512 == n;
    forall k | 0 <= k < m
      ensures FileSector(g, d, c, n)[k] == data[512 * n + k]
    {
      assert (512 * n + k) / 512 == n && (512 * n + k) % 512 == k;
    }
  }
}
