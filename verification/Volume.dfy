/** The FAT volume: one cached FAT sector, mirrored copies, and the operations on file handles. */
module FatVolume {
  import opened Words
  import opened Chains
  import opened Disks

  const NOT_BUFFERED: nat := WORD - 1   // buffered_fat_index = -1

  /** fileTYPE. */
  class FileHandle {
    var name: seq<Byte>
    var attributes: Byte
    var entrySector: nat
    var entryIndex: nat
    var sector: nat
    var size: nat
    var cluster: nat
    var startCluster: nat
    var clusterChange: int

    constructor () {
      name, attributes := [], 0;
      entrySector, entryIndex, sector, size := 0, 0, 0, 0;
      cluster, startCluster, clusterChange := 0, 0, 0;
    }

    method Describe(n: seq<Byte>, a: Byte, bytes: nat)
      modifies this`name, this`attributes, this`size
      ensures name == n && attributes == a && size == bytes
    {
      name, attributes, size := n, a, bytes;
    }

    /** Point the handle at the start of a file and at its directory slot. */
    method Place(start: nat, change: int, lba: nat, index: nat)
      modifies this`cluster, this`startCluster, this`sector, this`clusterChange, this`entrySector, this`entryIndex
      ensures cluster == startCluster == start && sector == 0 && clusterChange == change
      ensures entrySector == lba && entryIndex == index
    {
      cluster, startCluster, sector, clusterChange := start, start, 0, change;
      entrySector, entryIndex := lba, index;
    }

    /** The handle's cluster is the link of chain c its sector number asks for. */
    ghost predicate On(g: Geometry, c: Chain)
      reads this`sector, this`cluster
    {
      g.clusterSize > 0 && sector / g.clusterSize < |c| && cluster == c[sector / g.clusterSize]
    }

    /** The handle stands on chain c, which is the file's. */
    ghost predicate At(g: Geometry, c: Chain)
      reads this
    {
      |c| > 0 && startCluster == c[0] && On(g, c)
    }

    /** The handle has just run off the end of chain c. */
    ghost predicate Off(g: Geometry, c: Chain)
      reads this`sector, this`cluster
    {
      g.clusterSize > 0 && sector == Capacity(g, c) && cluster == g.shape.Eoc()
    }

    ghost predicate Past(g: Geometry, c: Chain)
      reads this
    {
      |c| > 0 && startCluster == c[0] && Off(g, c)
    }
  }

  class Volume {
    const g: Geometry
    const fatBuffer: array<Byte>
    const sectorBuffer: array<Byte>
    var bufferedFatIndex: nat
    var infoSector: nat
    var disk: Disk

    constructor (geometry: Geometry, card: Disk, info: nat)
      requires geometry.Valid() && (info == 0 || info < geometry.fatStart)
      ensures Valid() && fresh(fatBuffer) && fresh(sectorBuffer)
      ensures g == geometry && disk == card && infoSector == info
    {
      g := geometry;
      fatBuffer := new Byte[SECTOR_BYTES];
      sectorBuffer := new Byte[SECTOR_BYTES];
      bufferedFatIndex := NOT_BUFFERED;
      infoSector := info;
      disk := card;
    }

    /** The buffered sector equals the FAT sector with that index on the card.  (Behind the end of a
        chain NextCluster can load a sector that is none of the FAT's.) */
    ghost predicate Valid()
      reads this, fatBuffer
    {
      && g.Valid()
      && fatBuffer.Length == SECTOR_BYTES == sectorBuffer.Length && fatBuffer != sectorBuffer
      && (infoSector == 0 || infoSector < g.fatStart)
      && (bufferedFatIndex < g.fatSize ==> Buffered(bufferedFatIndex))
    }

    ghost predicate Buffered(index: nat)
      reads this, fatBuffer
      requires fatBuffer.Length == SECTOR_BYTES
    {
      bufferedFatIndex == index < g.fatSize && fatBuffer[..] == Rd(disk, g.fatStart + index)
    }

    ghost function T(): (t: Table)
      reads this`disk
      ensures |t| == g.Entries()
    {
      TableOf(g, disk)
    }

    ghost predicate Owns(c: Chain)
      reads this`disk
    {
      g.Valid() && IsChain(g.shape, T(), c)
    }

    // ---------- FAT sectors ----------

    method FatLoad(index: nat)
      requires Valid()
      modifies this`bufferedFatIndex, fatBuffer
      ensures Valid() && (index < g.fatSize ==> Buffered(index))
    {
      if bufferedFatIndex != index {
        var s := Rd(disk, g.fatStart + index);
        forall i | 0 <= i < SECTOR_BYTES {
          fatBuffer[i] := s[i];
        }
        bufferedFatIndex := index;
        assert fatBuffer[..] == s;
      }
    }

    method NextCluster(cluster: nat) returns (link: nat)
      requires Valid()
      modifies this`bufferedFatIndex, fatBuffer
      ensures Valid()
      ensures cluster < g.Entries() ==> Buffered(g.SectorOf(cluster)) && link == g.shape.Link(T()[cluster])
    {
      FatLoad(g.SectorOf(cluster));
      link := g.shape.Link(GetEntry(g, fatBuffer[..], g.OffsetOf(cluster)));
    }

    method FatSave(index: nat)
      requires g.Valid() && fatBuffer.Length == SECTOR_BYTES && index < g.fatSize
      modifies this`disk
      ensures FatWritten(g, old(disk), disk, index, fatBuffer[..])
    {
      var s: Sector := fatBuffer[..];
      CopySlot(g, 0, index);
      disk := disk[g.fatStart + index := s];
      FirstCopyWritten(g, old(disk), index, s);
      for i := 1 to g.fatNumber
        invariant CopiesWritten(g, old(disk), disk, index, s, i)
      {
        ghost var before := disk;
        disk := disk[g.fatStart + i * g.fatSize + index := s];
        NextCopyWritten(g, old(disk), before, index, s, i);
      }
      forall lba: nat | InFat(g, lba)
        ensures CopyOf(g, lba) < g.fatNumber
      {
        SlotCopy(g, lba);
      }
    }

    /** The tail of every table update: patch the buffered sector and save it. */
    method StoreLink(cluster: nat, value: nat)
      requires Valid() && cluster < g.Entries() && Buffered(g.SectorOf(cluster))
      requires value < if g.shape.fat32 then WORD else HALF
      modifies this`disk, fatBuffer
      ensures Valid() && Buffered(g.SectorOf(cluster))
      ensures T() == old(T())[cluster := value] && OnlyFatChanged(g, old(disk), disk)
      ensures old(Mirrored(g, disk)) ==> Mirrored(g, disk)
    {
      var index, i := g.SectorOf(cluster), g.OffsetOf(cluster);
      var s := WithEntry(g, fatBuffer[..], i, value);
      forall k | 0 <= k < SECTOR_BYTES {
        fatBuffer[k] := s[k];
      }
      assert fatBuffer[..] == s;
      FatSave(index);
      PrimarySlot(g, index);
      FatWrittenTable(g, old(disk), disk, cluster, value);
    }

    method ClusterAllocate() returns (cluster: nat)
      requires Valid()
      modifies this`bufferedFatIndex, this`disk, fatBuffer
      ensures Valid() && OnlyFatChanged(g, old(disk), disk)
      ensures old(Mirrored(g, disk)) ==> Mirrored(g, disk)
      ensures var n := LowestFree(old(T()), 2);
              if n < g.Entries() then cluster == n && T() == Allocate(g.shape, old(T()), n)
              else cluster == 0 && disk == old(disk)
    {
      var fatIndex, bufferIndex := 0, 2;
      while fatIndex < g.fatSize
        invariant Valid() && disk == old(disk) && 0 <= fatIndex <= g.fatSize
        invariant bufferIndex == if fatIndex == 0 then 2 else 0
        invariant UsedBelow(T(), FirstOf(g, fatIndex))
      {
        cluster := AllocateIn(fatIndex, bufferIndex);
        if cluster != 0 { return; }
        bufferIndex, fatIndex := 0, fatIndex + 1;
      }
      return 0;
    }

    /** One round of ClusterAllocate: take the first free entry of a FAT sector. */
    method AllocateIn(fatIndex: nat, from: nat) returns (cluster: nat)
      requires Valid() && fatIndex < g.fatSize && from <= g.PerSector() && (fatIndex == 0 ==> 2 <= from)
      requires UsedBelow(T(), FirstOf(g, fatIndex) + from)
      modifies this`bufferedFatIndex, this`disk, fatBuffer
      ensures Valid() && OnlyFatChanged(g, old(disk), disk)
      ensures old(Mirrored(g, disk)) ==> Mirrored(g, disk)
      ensures if cluster == 0 then disk == old(disk) && UsedBelow(T(), FirstOf(g, fatIndex + 1))
              else cluster == LowestFree(old(T()), 2) < g.Entries() && T() == Allocate(g.shape, old(T()), cluster)
    {
      FatLoad(fatIndex);
      BufferHolds(g, disk, fatIndex);
      var i := FindFree(fatIndex, from, T());
      if i == g.PerSector() { return 0; }
      cluster := FirstOf(g, fatIndex) + i;
      LowestIs(T(), cluster);
      Claim(fatIndex, i);
    }

    /** Mark a free entry of the buffered sector as the end of a chain. */
    method Claim(fatIndex: nat, i: nat)
      requires Valid() && Buffered(fatIndex) && i < g.PerSector()
      modifies this`disk, fatBuffer
      ensures Valid() && OnlyFatChanged(g, old(disk), disk) && FirstOf(g, fatIndex) + i < g.Entries()
      ensures old(Mirrored(g, disk)) ==> Mirrored(g, disk)
      ensures T() == Allocate(g.shape, old(T()), FirstOf(g, fatIndex) + i)
    {
      EntryPosition(g, disk, fatIndex, i);
      StoreLink(FirstOf(g, fatIndex) + i, g.shape.Eoc());
    }

    /** The inner loop of ClusterAllocate, over the buffered part of table t. */
    method FindFree(fatIndex: nat, from: nat, ghost t: Table) returns (i: nat)
      requires g.Valid() && fatBuffer.Length == SECTOR_BYTES && from <= g.PerSector()
      requires HoldsEntries(g, fatBuffer[..], fatIndex, t) && UsedBelow(t, FirstOf(g, fatIndex) + from)
      ensures from <= i <= g.PerSector() && UsedBelow(t, FirstOf(g, fatIndex) + i)
      ensures i < g.PerSector() ==> FirstOf(g, fatIndex) + i < |t| && t[FirstOf(g, fatIndex) + i] == 0
    {
      i := from;
      while i < g.PerSector()
        invariant from <= i <= g.PerSector() && UsedBelow(t, FirstOf(g, fatIndex) + i)
      {
        if GetEntry(g, fatBuffer[..], i) == 0 {
          return;
        }
        i := i + 1;
      }
    }

    // ---------- moving along a chain ----------

    method FileNextSector(file: FileHandle, ghost c: Chain)
      requires Valid() && Owns(c) && (file.On(g, c) || file.Off(g, c))
      modifies this`bufferedFatIndex, fatBuffer, file`sector, file`cluster
      ensures Valid() && (old(file.On(g, c)) ==> file.sector == old(file.sector) + 1)
      ensures old(file.On(g, c)) ==> if file.sector < Capacity(g, c) then file.On(g, c) else file.Off(g, c)
    {
      if file.On(g, c) { NextSectorFacts(g, T(), c, file.sector); }
      file.sector := (file.sector + 1) % WORD;
      if file.sector % g.clusterSize == 0 {
        file.cluster := NextCluster(file.cluster);
      }
    }

    method FileSeek(file: FileHandle, target: nat, relative: bool, ghost c: Chain)
      returns (ok: bool, ghost links: nat)
      requires Valid() && Owns(c) && file.At(g, c) && target < WORD
      requires relative ==> file.sector + target < WORD
      modifies this`bufferedFatIndex, fatBuffer, file`sector, file`cluster
      ensures Valid()
      ensures Sought(g, c, file, if relative then old(file.sector) + target else target, ok)
      ensures links <= LinksNeeded(g, old(file.sector), if relative then old(file.sector) + target else target)
    {
      var offset := if relative then (target + file.sector) % WORD else target;
      StepBack(file, offset, c);
      ok, links := SeekForward(file, offset, c);
    }

    /** The first part of FileSeek: behind the offset start over, unless it is in the same cluster. */
    method StepBack(file: FileHandle, offset: nat, ghost c: Chain)
      requires g.clusterSize > 0 && file.At(g, c)
      modifies file`sector, file`cluster
      ensures file.At(g, c) && file.sector <= offset
      ensures offset / g.clusterSize - file.sector / g.clusterSize == LinksNeeded(g, old(file.sector), offset)
    {
      SeekBackFacts(file.sector, offset, g.clusterSize);
      if file.sector > offset {
        if file.sector / g.clusterSize != offset / g.clusterSize {
          file.cluster := file.startCluster;
          file.sector := 0;
        } else {
          file.sector := offset;
        }
      }
    }

    /** The loop of FileSeek: follow links until the cluster of `offset` is reached. */
    method SeekForward(file: FileHandle, offset: nat, ghost c: Chain) returns (ok: bool, ghost links: nat)
      requires Valid() && Owns(c) && file.At(g, c) && file.sector <= offset < WORD
      modifies this`bufferedFatIndex, fatBuffer, file`sector, file`cluster
      ensures Valid() && Sought(g, c, file, offset, ok)
      ensures links <= offset / g.clusterSize - old(file.sector) / g.clusterSize
    {
      DivMonotone(file.sector, offset, g.clusterSize);
      ghost var q := file.sector / g.clusterSize;
      links := 0;
      while file.sector / g.clusterSize != offset / g.clusterSize
        invariant Valid() && file.At(g, c)
        invariant q == file.sector / g.clusterSize <= offset / g.clusterSize
        invariant links == q - old(file.sector) / g.clusterSize
        decreases offset / g.clusterSize - q
      {
        NextClusterFacts(g, T(), c, file.sector);
        file.cluster := NextCluster(file.cluster);
        links := links + 1;
        if file.cluster == g.shape.Eoc() {
          return false, links;
        }
        file.sector := (file.sector + g.clusterSize) % WORD;
        q := q + 1;
      }
      file.sector := offset;
      return true, links;
    }

    // ---------- sector transfer ----------

    /** MMC_Read into the sector buffer. */
    method LoadSector(lba: nat)
      requires Valid()
      modifies sectorBuffer
      ensures Valid() && sectorBuffer[..] == Rd(disk, lba)
    {
      var s := Rd(disk, lba);
      forall i | 0 <= i < SECTOR_BYTES {
        sectorBuffer[i] := s[i];
      }
      assert sectorBuffer[..] == s;
    }

    ghost function HandleLba(file: FileHandle): nat
      reads file`cluster, file`sector
      requires g.clusterSize > 0
    {
      Lba(g, file.cluster, file.sector)
    }

    /** FileRead into `buffer`, at byte `at` of it. */
    method FileRead(file: FileHandle, buffer: array<Byte>, at: nat)
      requires Valid() && buffer != fatBuffer && at + SECTOR_BYTES <= buffer.Length
      modifies buffer
      ensures buffer[..] == old(buffer[..at]) + Rd(disk, HandleLba(file)) + old(buffer[at + SECTOR_BYTES..])
    {
      var s := Rd(disk, Lba(g, file.cluster, file.sector));
      forall i | 0 <= i < SECTOR_BYTES {
        buffer[at + i] := s[i];
      }
    }

    /** FileRead with a null buffer: the sector goes straight to the FPGA. */
    method FileReadDirect(file: FileHandle) returns (s: Sector)
      requires Valid()
      ensures s == Rd(disk, HandleLba(file))
    {
      s := Rd(disk, Lba(g, file.cluster, file.sector));
    }

    /** FileReadEx: `n` sectors, one multi-block read per cluster touched.  The data is complete
        even when the call fails, which it does exactly when the range ends where the chain ends. */
    method FileReadEx(file: FileHandle, n: nat, ghost c: Chain) returns (ok: bool, data: seq<Sector>)
      requires Valid() && Owns(c) && file.At(g, c) && file.sector + n <= Capacity(g, c)
      modifies this`bufferedFatIndex, fatBuffer, file`sector, file`cluster
      ensures Valid() && |data| == n && IsRange(g, disk, c, old(file.sector), data)
      ensures ok <==> old(file.sector) + n < Capacity(g, c)
      ensures ok ==> file.At(g, c) && file.sector == old(file.sector) + n
    {
      data := [];
      var left: nat := n;
      InCapacity(g, c, file.sector);
      while left > 0
        invariant Valid() && file.At(g, c) && file.sector < Capacity(g, c)
        invariant left <= n && |data| == n - left && file.sector == old(file.sector) + |data|
        invariant IsRange(g, disk, c, old(file.sector), data)
      {
        var blocks;
        ok, blocks := ReadRun(file, left, c);
        RangesJoin(g, disk, c, old(file.sector), data, blocks);
        data, left := data + blocks, left - |blocks|;
        if !ok {
          return;
        }
      }
      return true, data;
    }

    /** One multi-block read, up to the end of the cluster, and the seek behind it. */
    method ReadRun(file: FileHandle, left: nat, ghost c: Chain) returns (ok: bool, blocks: seq<Sector>)
      requires Valid() && Owns(c) && file.At(g, c) && 0 < left && file.sector + left <= Capacity(g, c)
      modifies this`bufferedFatIndex, fatBuffer, file`sector, file`cluster
      ensures Valid() && 0 < |blocks| <= left && IsRange(g, disk, c, old(file.sector), blocks)
      ensures ok <==> old(file.sector) + |blocks| < Capacity(g, c)
      ensures ok ==> file.At(g, c) && file.sector == old(file.sector) + |blocks|
    {
      var count := g.clusterSize - file.sector % g.clusterSize;
      if left < count { count := left; }
      blocks := Blocks(disk, Lba(g, file.cluster, file.sector), count);   // MMC_ReadMultiple
      RunOfSectors(g, T(), disk, c, file.sector, blocks);
      CapacityFits(g, T(), c);
      InCapacity(g, c, file.sector + count);
      ghost var links;
      ok, links := FileSeek(file, count, true, c);
    }

    method FileWrite(file: FileHandle, buffer: array<Byte>, ghost c: Chain)
      requires Valid() && Owns(c) && file.On(g, c)
      requires buffer.Length == SECTOR_BYTES
      modifies this`disk
      ensures Valid() && T() == old(T()) && Owns(c)
      ensures disk == old(disk)[FileLba(g, c, file.sector) := buffer[..]]
      ensures FatUnchanged(g, old(disk), disk)
      ensures old(Mirrored(g, disk)) ==> Mirrored(g, disk)
    {
      LbaInData(g, file.cluster, file.sector);
      assert FileLba(g, c, file.sector) == Lba(g, file.cluster, file.sector);
      disk := disk[Lba(g, file.cluster, file.sector) := buffer[..]];
      OutsideFat(g, old(disk), disk);
      if bufferedFatIndex < g.fatSize { PrimarySlot(g, bufferedFatIndex); }
    }

    // ---------- growing and closing a file ----------

    /** FileNextSectorExpand.  It reports success even on a full volume, leaving cluster 0. */
    method FileNextSectorExpand(file: FileHandle, ghost c: Chain) returns (ok: bool, ghost grown: Chain)
      requires Valid() && Owns(c) && file.At(g, c)
      modifies this`bufferedFatIndex, this`disk, fatBuffer
      modifies file`sector, file`cluster, file`clusterChange
      ensures ok && Valid() && OnlyFatChanged(g, old(disk), disk)
      ensures old(Mirrored(g, disk)) ==> Mirrored(g, disk)
      ensures file.sector == old(file.sector) + 1 <= Capacity(g, c)
      ensures file.sector < Capacity(g, c) ==>
                disk == old(disk) && grown == c && file.At(g, c) && file.clusterChange == old(file.clusterChange)
      ensures file.sector == Capacity(g, c) ==>
                Extended(g, old(T()), c, T(), file, grown) && (file.cluster == 0 ==> disk == old(disk))
      ensures file.clusterChange == old(file.clusterChange) + if file.cluster in c || file.cluster == 0 then 0 else 1
    {
      var current := file.cluster;
      NextSectorFacts(g, T(), c, file.sector);
      grown := c;
      FileNextSector(file, c);
      ok := true;
      if file.cluster == g.shape.Eoc() {
        grown := Append(file, current, c);
      } else {
        assert file.cluster in c;
      }
    }

    /** The tail of FileNextSectorExpand: allocate a cluster and link it behind `current`. */
    method Append(file: FileHandle, current: nat, ghost c: Chain) returns (ghost grown: Chain)
      requires Valid() && Owns(c) && current == c[|c| - 1] && file.Past(g, c)
      modifies this`bufferedFatIndex, this`disk, fatBuffer
      modifies file`cluster, file`clusterChange
      ensures Valid() && OnlyFatChanged(g, old(disk), disk)
      ensures old(Mirrored(g, disk)) ==> Mirrored(g, disk)
      ensures Extended(g, old(T()), c, T(), file, grown) && (file.cluster == 0 ==> disk == old(disk))
      ensures file.cluster !in c
      ensures file.clusterChange == old(file.clusterChange) + if file.cluster == 0 then 0 else 1
    {
      ghost var t := T();
      file.cluster := ClusterAllocate();
      grown := c + [file.cluster];
      if file.cluster != 0 {
        file.clusterChange := file.clusterChange + 1;
        FreshIsUnowned(g.shape, t, c, file.cluster);
        FatLoad(g.SectorOf(current));
        StoreLink(current, Truncated(g, file.cluster));
        if file.cluster < g.shape.clusterLimit {
          assert T() == AppendTable(g.shape, t, c[|c| - 1], file.cluster);
          AppendExtendsChain(g.shape, t, c, file.cluster);
          DivModUnique(file.sector, g.clusterSize, |c|, 0);
          assert grown[0] == c[0] && grown[|c|] == file.cluster;
        }
      }
    }

    /** FileWriteEnd: end the chain at the handle's cluster, release the rest, report to FSInfo. */
    method FileWriteEnd(file: FileHandle, ghost c: Chain)
      requires Valid() && Owns(c) && file.At(g, c)
      modifies this, fatBuffer, sectorBuffer, file`cluster, file`clusterChange
      ensures Valid() && file.cluster == g.shape.Eoc()
      ensures T() == CutTable(g.shape, old(T()), c, old(file.sector) / g.clusterSize)
      ensures Owns(c[..old(file.sector) / g.clusterSize + 1])
      ensures file.clusterChange == old(file.clusterChange) - (|c| - old(file.sector) / g.clusterSize - 1)
      ensures OnlyFatChanged(g, InfoWritten(old(infoSector), old(disk), file.clusterChange), disk)
      ensures infoSector
           == if file.clusterChange == 0 || InfoValid(old(infoSector), old(disk)) then old(infoSector) else 0
      ensures old(Mirrored(g, disk)) ==> Mirrored(g, disk)
    {
      ghost var pos, t := file.sector / g.clusterSize, T();
      CutChain(file, pos, c);
      CutShortensChain(g.shape, t, c, pos);
      InfoFrame(g, infoSector, old(disk), disk, file.clusterChange);
      UpdateInfo(file.clusterChange);
    }

    /** One round of the loop of FileWriteEnd. */
    method CutHere(file: FileHandle, marker: nat)
      requires Valid() && file.cluster < g.Entries() && (marker == 0 || marker == g.shape.Eoc())
      modifies this`bufferedFatIndex, this`disk, fatBuffer, file`cluster, file`clusterChange
      ensures Valid() && OnlyFatChanged(g, old(disk), disk)
      ensures old(Mirrored(g, disk)) ==> Mirrored(g, disk)
      ensures T() == old(T())[old(file.cluster) := marker]
      ensures file.cluster == g.shape.Link(old(T())[old(file.cluster)])
      ensures file.clusterChange == old(file.clusterChange) - if marker == 0 then 1 else 0
    {
      var next := NextCluster(file.cluster);
      StoreLink(file.cluster, marker);
      if marker == 0 {
        file.clusterChange := file.clusterChange - 1;
      }
      file.cluster := next;
    }

    /** The loop of FileWriteEnd. */
    method CutChain(file: FileHandle, ghost pos: nat, ghost c: Chain)
      requires Valid() && Owns(c) && pos < |c| && file.cluster == c[pos]
      modifies this`bufferedFatIndex, this`disk, fatBuffer, file`cluster, file`clusterChange
      ensures Valid() && file.cluster == g.shape.Eoc()
      ensures T() == CutTable(g.shape, old(T()), c, pos) && OnlyFatChanged(g, old(disk), disk)
      ensures file.clusterChange == old(file.clusterChange) - (|c| - pos - 1)
      ensures old(Mirrored(g, disk)) ==> Mirrored(g, disk)
    {
      ghost var t, done := T(), pos;
      NotEoc(g, c, pos);
      var marker := g.shape.Eoc();
      while file.cluster != g.shape.Eoc()
        invariant Valid() && OnlyFatChanged(g, old(disk), disk)
        invariant old(Mirrored(g, disk)) ==> Mirrored(g, disk)
        invariant pos <= done <= |c| && marker == if done == pos then g.shape.Eoc() else 0
        invariant if done < |c| then file.cluster == c[done] != g.shape.Eoc() else file.cluster == g.shape.Eoc()
        invariant T() == CutSoFar(g.shape, t, c, pos, done)
        invariant file.clusterChange == old(file.clusterChange) - if done == pos then 0 else done - pos - 1
        decreases |c| - done
      {
        CutRound(g.shape, t, c, pos, done);
        CutHere(file, marker);
        marker := 0;
        done := done + 1;
        if done < |c| { NotEoc(g, c, done); }
      }
      assert c[..|c|] == c;
    }

    /** The end of FileWriteEnd: adjust the free count of a valid FSInfo sector. */
    method UpdateInfo(change: int)
      requires Valid()
      modifies this`infoSector, this`disk, sectorBuffer
      ensures Valid() && disk == InfoWritten(old(infoSector), old(disk), change)
      ensures infoSector == if change == 0 || InfoValid(old(infoSector), old(disk)) then old(infoSector) else 0
      ensures T() == old(T()) && (old(Mirrored(g, disk)) ==> Mirrored(g, disk))
    {
      if infoSector != 0 && change != 0 {
        LoadSector(infoSector);
        if Le16(sectorBuffer[..], 510) != 0xAA55 || Le32(sectorBuffer[..], 0) != 0x41615252
           || Le32(sectorBuffer[..], 484) != 0x61417272 || Le32(sectorBuffer[..], FREE_COUNT) == 0xFFFF_FFFF {
          infoSector := 0;
        } else {
          var n := PutLe32(sectorBuffer[..], FREE_COUNT, (Le32(sectorBuffer[..], FREE_COUNT) - change) % WORD);
          forall i | 0 <= i < SECTOR_BYTES {
            sectorBuffer[i] := n[i];
          }
          assert sectorBuffer[..] == n;
          disk := disk[infoSector := n];
          OutsideFat(g, old(disk), disk);
          if bufferedFatIndex < g.fatSize { PrimarySlot(g, bufferedFatIndex); }
        }
      }
    }
  }

  lemma NotEoc(g: Geometry, c: Chain, i: nat)
    requires g.Valid() && i < |c| && 2 <= c[i] < g.shape.clusterLimit
    ensures c[i] != g.shape.Eoc()
  {
  }

  const FREE_COUNT: nat := 488   // offset of free_clusters in the FSInfo sector

  predicate InfoValid(info: nat, d: Disk) {
    && info != 0
    && Le16(Rd(d, info), 510) == 0xAA55 && Le32(Rd(d, info), 0) == 0x41615252
    && Le32(Rd(d, info), 484) == 0x61417272 && Le32(Rd(d, info), FREE_COUNT) != 0xFFFF_FFFF
  }

  /** Sector `info` says "RRaA", "rrAa" and 0x55 0xAA in their places, and its count is known. */
  lemma InfoLayout(info: nat, d: Disk)
    ensures var s := Rd(d, info);
            InfoValid(info, d) <==>
              && info != 0
              && s[0] == 'R' as int && s[1] == 'R' as int && s[2] == 'a' as int && s[3] == 'A' as int
              && s[484] == 'r' as int && s[485] == 'r' as int && s[486] == 'A' as int && s[487] == 'a' as int
              && s[510] == 0x55 && s[511] == 0xAA
              && !(s[488] == 0xFF && s[489] == 0xFF && s[490] == 0xFF && s[491] == 0xFF)
  {
  }

  /** The count is the little-endian number behind the second signature. */
  lemma InfoCount(info: nat, d: Disk, change: int)
    requires InfoValid(info, d)
    ensures var s, s' := Rd(d, info), Rd(InfoWritten(info, d, change), info);
            && (s'[488] + 0x100 * s'[489] as int + 0x1_0000 * s'[490] as int + 0x100_0000 * s'[491] as int
                - (s[488] + 0x100 * s[489] as int + 0x1_0000 * s[490] as int + 0x100_0000 * s[491] as int)
                + change) % WORD == 0
            && forall i :: 0 <= i < 512 && !(488 <= i < 492) ==> s'[i] == s[i]
  {
    if change != 0 {
      var count := Le32(Rd(d, info), FREE_COUNT);
      PutLe32ReadsBack(Rd(d, info), FREE_COUNT, (count - change) % WORD);
      Difference(count, change);
    }
  }

  lemma Difference(a: int, b: int)
    ensures ((a - b) % WORD - a + b) % WORD == 0
  {
  }

  /** The card after FileWriteEnd reported `change` newly used clusters. */
  function InfoWritten(info: nat, d: Disk, change: int): Disk {
    if change != 0 && InfoValid(info, d) then
      d[info := PutLe32(Rd(d, info), FREE_COUNT, (Le32(Rd(d, info), FREE_COUNT) - change) % WORD)]
    else d
  }

  lemma InfoWrittenElsewhere(info: nat, d: Disk, change: int, lba: nat)
    requires lba != info
    ensures Rd(InfoWritten(info, d, change), lba) == Rd(d, lba)
  {
  }

  /** Table updates and the FSInfo update commute. */
  lemma InfoFrame(g: Geometry, info: nat, d: Disk, d': Disk, change: int)
    requires g.Valid() && info < g.fatStart && OnlyFatChanged(g, d, d')
    ensures InfoValid(info, d') <==> InfoValid(info, d)
    ensures OnlyFatChanged(g, InfoWritten(info, d, change), InfoWritten(info, d', change))
  {
    assert Rd(d', info) == Rd(d, info);
  }

  /** A valid FSInfo sector whose count lags by the handle's cluster_change is exact afterwards. */
  lemma InfoExact(info: nat, d: Disk, change: int, free: nat)
    requires InfoValid(info, d) && Le32(Rd(d, info), FREE_COUNT) == free + change && free < 0xFFFF_FFFF
    ensures InfoValid(info, InfoWritten(info, d, change))
    ensures Le32(Rd(InfoWritten(info, d, change), info), FREE_COUNT) == free
  {
    if change != 0 {
      var s := Rd(d, info);
      PutLe32Reads(s, FREE_COUNT, free, 0);
      PutLe32Reads(s, FREE_COUNT, free, 484);
      assert PutLe32(s, FREE_COUNT, free)[510..512] == s[510..512];
      NoWrap(free);
    }
  }

  /** The assignment to a fat16 or fat32 entry keeps that many bits of the cluster number. */
  function Truncated(g: Geometry, cluster: nat): (v: nat)
    ensures v < if g.shape.fat32 then WORD else HALF
    ensures g.shape.Valid() && cluster < g.shape.clusterLimit ==> v == cluster
  {
    if g.shape.fat32 then cluster % WORD else cluster % HALF
  }

  /** The outcome of growing chain c by one cluster: the lowest free cluster was appended, or the
      volume was full. */
  ghost predicate Extended(g: Geometry, t: Table, c: Chain, t': Table, file: FileHandle, grown: Chain)
    requires g.Valid() && |t| == |t'| == g.Entries() && IsChain(g.shape, t, c)
    reads file
  {
    var n := LowestFree(t, 2);
    if n < g.shape.clusterLimit then
      && t' == AppendTable(g.shape, t, c[|c| - 1], n)
      && grown == c + [n] && IsChain(g.shape, t', grown)
      && file.At(g, grown) && file.cluster == n
    else
      file.cluster == if n < g.Entries() then n else 0
  }

  /** Number of the first cluster whose entry is in FAT sector `index`. */
  function FirstOf(g: Geometry, index: nat): (c: nat) {
    if g.shape.fat32 then index * 128 else index * 256
  }

  lemma EntryPosition(g: Geometry, d: Disk, index: nat, i: nat)
    requires i < g.PerSector() && index < g.fatSize
    ensures var k := FirstOf(g, index) + i;
            && g.SectorOf(k) == index && g.OffsetOf(k) == i && k < g.Entries()
            && TableOf(g, d)[k] == GetEntry(g, Rd(d, g.fatStart + index), i)
  {
  }

  ghost predicate UsedBelow(t: Table, n: nat) {
    forall k :: 2 <= k < n && k < |t| ==> t[k] != 0
  }

  /** s holds the entries of table t that belong to FAT sector `index`. */
  ghost predicate HoldsEntries(g: Geometry, s: Sector, index: nat, t: Table) {
    && FirstOf(g, index) + g.PerSector() <= |t|
    && forall i {:trigger GetEntry(g, s, i)} :: 0 <= i < g.PerSector() ==> GetEntry(g, s, i) == t[FirstOf(g, index) + i]
  }

  lemma BufferHolds(g: Geometry, d: Disk, index: nat)
    requires index < g.fatSize
    ensures HoldsEntries(g, Rd(d, g.fatStart + index), index, TableOf(g, d))
  {
    var s, t := Rd(d, g.fatStart + index), TableOf(g, d);
    EntryPosition(g, d, index, g.PerSector() - 1);
    forall i {:trigger GetEntry(g, s, i)} | 0 <= i < g.PerSector()
      ensures GetEntry(g, s, i) == t[FirstOf(g, index) + i]
    {
      EntryPosition(g, d, index, i);
    }
  }

  lemma LowestIs(t: Table, n: nat)
    requires 2 <= n < |t| && t[n] == 0 && UsedBelow(t, n)
    ensures LowestFree(t, 2) == n
  {
  }

  /** Where a seek to sector `offset` leaves a handle of chain c, and when it succeeds. */
  ghost predicate Sought(g: Geometry, c: Chain, file: FileHandle, offset: nat, ok: bool)
    requires g.clusterSize > 0
    reads file
  {
    && |c| > 0
    && (ok <==> offset / g.clusterSize < |c|)
    && (if ok then file.At(g, c) && file.sector == offset
        else file.cluster == g.shape.Eoc() && file.startCluster == c[0])
  }

  /** Links FileSeek may follow: from the start of the file when it moves back across a cluster. */
  function LinksNeeded(g: Geometry, from: nat, to: nat): nat
    requires g.clusterSize > 0
  {
    if from / g.clusterSize <= to / g.clusterSize then to / g.clusterSize - from / g.clusterSize
    else to / g.clusterSize
  }

  /** `data` is the sectors of the file from number `from` on: what FileRead and FileNextSector
      deliver one by one. */
  ghost predicate IsRange(g: Geometry, d: Disk, c: Chain, from: nat, data: seq<Sector>)
    requires g.clusterSize > 0
  {
    forall k :: 0 <= k < |data| ==> IsSectorOf(g, d, c, from + k, data[k])
  }

  ghost predicate IsSectorOf(g: Geometry, d: Disk, c: Chain, n: nat, s: Sector)
    requires g.clusterSize > 0
  {
    n / g.clusterSize < |c| && s == FileSector(g, d, c, n)
  }

  lemma RangesJoin(g: Geometry, d: Disk, c: Chain, from: nat, data: seq<Sector>, blocks: seq<Sector>)
    requires g.clusterSize > 0 && IsRange(g, d, c, from, data) && IsRange(g, d, c, from + |data|, blocks)
    ensures IsRange(g, d, c, from, data + blocks)
  {
    var all: seq<Sector> := data + blocks;
    forall k | 0 <= k < |all|
      ensures IsSectorOf(g, d, c, from + k, all[k])
    {
      if k < |data| {
        assert all[k] == data[k];
      } else {
        assert all[k] == blocks[k - |data|] && from + k == from + |data| + (k - |data|);
      }
    }
  }

  /** The blocks of one multi-block read are the sectors of the file. */
  lemma RunOfSectors(g: Geometry, t: Table, d: Disk, c: Chain, n: nat, blocks: seq<Sector>)
    requires g.Valid() && g.shape.clusterLimit <= |t| && IsChain(g.shape, t, c)
    requires n / g.clusterSize < |c| && n % g.clusterSize + |blocks| <= g.clusterSize
    requires forall k :: 0 <= k < |blocks| ==> blocks[k] == Rd(d, Lba(g, c[n / g.clusterSize], n) + k)
    ensures IsRange(g, d, c, n, blocks)
  {
    forall k | 0 <= k < |blocks|
      ensures IsSectorOf(g, d, c, n + k, blocks[k])
    {
      LbaRun(g, c, n, k, t);
      assert blocks[k] == Rd(d, FileLba(g, c, n) + k) == Rd(d, FileLba(g, c, n + k));
    }
  }

  // ---------- arithmetic of sector numbers ----------

  lemma SeekBackFacts(from: nat, to: nat, d: nat)
    requires d > 0
    ensures to < from ==> to / d <= from / d
    ensures from <= to ==> from / d <= to / d
    ensures 0 / d == 0
  {
    if to < from { DivMonotone(to, from, d); } else { DivMonotone(from, to, d); }
  }

  lemma NextQuotient(n: nat, d: nat)
    requires d > 0
    ensures (n + 1) % d == 0 ==> (n + 1) / d == n / d + 1
    ensures (n + 1) % d != 0 ==> (n + 1) / d == n / d
  {
    if n % d + 1 == d {
      DivModUnique(n + 1, d, n / d + 1, 0);
    } else {
      DivModUnique(n + 1, d, n / d, n % d + 1);
    }
  }

  /** What one more sector means for a handle that stands at sector n of chain c. */
  lemma NextSectorFacts(g: Geometry, t: Table, c: Chain, n: nat)
    requires g.Valid() && g.shape.clusterLimit <= |t| && IsChain(g.shape, t, c) && n / g.clusterSize < |c|
    ensures n + 1 < WORD && c[n / g.clusterSize] < g.shape.clusterLimit
    ensures g.shape.Link(t[c[n / g.clusterSize]]) == Successor(g.shape, c, n / g.clusterSize)
    ensures (n + 1) / g.clusterSize == n / g.clusterSize + if (n + 1) % g.clusterSize == 0 then 1 else 0
    ensures if (n + 1) / g.clusterSize < |c| then n + 1 < Capacity(g, c) else n + 1 == Capacity(g, c)
  {
    CapacityFits(g, t, c);
    NextQuotient(n, g.clusterSize);
    InCapacity(g, c, n);
    InCapacity(g, c, n + 1);
  }

  /** What one more cluster means for a handle that stands at sector n of chain c. */
  lemma NextClusterFacts(g: Geometry, t: Table, c: Chain, n: nat)
    requires g.Valid() && g.shape.clusterLimit <= |t| && IsChain(g.shape, t, c) && n / g.clusterSize < |c|
    ensures var q := n / g.clusterSize;
            && c[q] < g.shape.clusterLimit
            && (g.shape.Link(t[c[q]]) == g.shape.Eoc() <==> q + 1 == |c|)
            && (q + 1 < |c| ==> g.shape.Link(t[c[q]]) == c[q + 1])
            && (q + 1 < |c| ==> (n + g.clusterSize) % WORD / g.clusterSize == q + 1)
  {
    var q := n / g.clusterSize;
    assert Successor(g.shape, c, q) == g.shape.Link(t[c[q]]);
    DivModUnique(n + g.clusterSize, g.clusterSize, q + 1, n % g.clusterSize);
    CapacityFits(g, t, c);
    InCapacity(g, c, n + g.clusterSize);
    if q + 1 < |c| { NoWrap(n + g.clusterSize); }
  }

  // ---------- writing the copies one after the other ----------

  /** The first `copies` copies of sector `index` are written. */
  ghost predicate CopiesWritten(g: Geometry, d: Disk, d': Disk, index: nat, s: Sector, copies: nat)
    requires g.Valid()
  {
    forall lba: nat :: Rd(d', lba) ==
      if InFat(g, lba) && Slot(g, lba) == index && CopyOf(g, lba) < copies then s else Rd(d, lba)
  }

  lemma FirstCopyWritten(g: Geometry, d: Disk, index: nat, s: Sector)
    requires g.Valid() && index < g.fatSize
    ensures CopiesWritten(g, d, d[g.fatStart + index := s], index, s, 1)
  {
    CopySlot(g, 0, index);
    forall lba: nat | InFat(g, lba) && Slot(g, lba) == index && CopyOf(g, lba) < 1
      ensures lba == g.fatStart + index
    {
      SlotCopy(g, lba);
    }
  }

  lemma NextCopyWritten(g: Geometry, d: Disk, d': Disk, index: nat, s: Sector, i: nat)
    requires g.Valid() && index < g.fatSize && i < g.fatNumber && CopiesWritten(g, d, d', index, s, i)
    ensures CopiesWritten(g, d, d'[g.fatStart + i * g.fatSize + index := s], index, s, i + 1)
  {
    CopySlot(g, i, index);
    forall lba: nat | InFat(g, lba) && Slot(g, lba) == index && CopyOf(g, lba) == i
      ensures lba == g.fatStart + i * g.fatSize + index
    {
      SlotCopy(g, lba);
    }
  }
}
