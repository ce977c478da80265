/** READ SECTORS and WRITE SECTORS on a hardfile: the image, shifted behind a synthesized cylinder. */
module Ide {
  import opened Words
  import opened Chains
  import opened Disks
  import opened FatVolume
  import opened Hardfile
  import opened Chs
  import Rdb

  class IdeUnit {
    const unit: nat
    const hard: HardFile
    var cylinders: nat
    var track: Track
    var offset: int    // image sector of virtual block 0; negative with HDF_SYNTHRDB

    constructor (u: nat, h: HardFile)
      ensures unit == u && hard == h
    {
      unit, hard := u, h;
      cylinders, track, offset := 1, Track(1, 1), 0;
    }

    /** OpenHardfile: geometry and offset of an image of `size` bytes.  The cylinder count of a
        synthesized geometry is cut to 16 bits. */
    method Mount(synth: bool)
      requires 0 < hard.file.size < WORD
      modifies this
      ensures Mounted() && (synth <==> offset < 0)
      ensures synth ==> track == Track(1, 32)
      ensures synth ==> (cylinders == hard.file.size / 512 / 32 + 1 <==> hard.file.size < 65535 * 32 * 512)
      ensures !synth ==> cylinders * track.heads * track.sectors <= hard.file.size / 512
                         < (cylinders + 1) * track.heads * track.sectors
    {
      var total := hard.file.size / 512;
      if synth {
        track, cylinders := Track(1, 32), (total / 32 + 1) % HALF;
        offset := -(track.heads * track.sectors);
      } else {
        var cyl, heads, sectors;
        ghost var i;
        cyl, heads, sectors, i := GetHardfileGeometry(total);
        track, cylinders, offset := Track(heads, sectors), cyl, 0;
      }
    }

    ghost predicate Mounted()
      reads this
    {
      && track.Valid() && cylinders < HALF
      && (offset == 0 || offset == -(track.heads * track.sectors))
    }

    ghost predicate Ready(g: Geometry, c: Chain)
      reads this, hard, hard.file, hard.index
    {
      && Mounted() && hard.file.At(g, c) && hard.Indexed(g, c)
      && 0 < hard.file.size <= 512 * Capacity(g, c) && IndexFits(hard.file.size)
    }

    ghost function Map(): View
      reads this
    {
      View(unit, Rdb.Shape(cylinders, track.heads, track.sectors), offset)
    }

    /** Where the handle stands while virtual block L is next. */
    ghost predicate Standing(g: Geometry, c: Chain, L: nat)
      reads this, hard, hard.file
    {
      hard.file.At(g, c) && hard.file.sector == if L + offset < 0 then 0 else L + offset
    }

    /** A transfer of n blocks from L on that ends before the last sector of the chain. */
    predicate InRange(g: Geometry, c: Chain, L: int, n: nat)
      reads this, hard, hard.file`size
    {
      && 0 <= L && 512 * (L + offset) < hard.file.size
      && L + n + offset < Capacity(g, c)
    }

    /** READ SECTORS (count 0 stands for 256): the blocks sent and the task file addresses written. */
    method ReadSectors(vol: Volume, a: Address, count: Byte, ghost c: Chain)
      returns (host: seq<Sector>, regs: seq<Address>)
      requires vol.Valid() && vol.Owns(c) && Ready(vol.g, c) && IsAddress(track, a)
      requires InRange(vol.g, c, ToLba(track, a), Count(count))
      modifies hard.file`sector, hard.file`cluster, vol`bufferedFatIndex, vol.fatBuffer, vol.sectorBuffer
      ensures vol.Valid() && hard.file.At(vol.g, c)
      ensures |host| == Count(count) && IsVirtualRun(Map(), vol.g, vol.disk, c, ToLba(track, a), host)
      ensures regs == TaskFile(track, a, Count(count), Count(count))
    {
      var lba: nat := ToLba(track, a);
      ghost var ok, links := hard.HardFileSeek(vol, if lba + offset < 0 then 0 else lba + offset, c);
      host, regs := SendBlocks(vol, a, lba, Count(count), c);
    }

    /** The loop of READ SECTORS. */
    method SendBlocks(vol: Volume, a: Address, start: nat, n: nat, ghost c: Chain)
      returns (host: seq<Sector>, regs: seq<Address>)
      requires vol.Valid() && vol.Owns(c) && Mounted() && Standing(vol.g, c, start) && n > 0
      requires start + n + offset < Capacity(vol.g, c)
      modifies hard.file`sector, hard.file`cluster, vol`bufferedFatIndex, vol.fatBuffer, vol.sectorBuffer
      ensures vol.Valid() && Standing(vol.g, c, start + n)
      ensures |host| == n && IsVirtualRun(Map(), vol.g, vol.disk, c, start, host)
      ensures regs == TaskFile(track, a, n, n)
    {
      var left, lba, at := n, start, a;
      host, regs := [], [];
      while left > 0
        invariant vol.Valid() && Standing(vol.g, c, lba)
        invariant 0 <= left <= n && lba == start + (n - left) && |host| == n - left
        invariant at == Steps(track, a, if left == 0 then n - 1 else n - left)
        invariant IsVirtualRun(Map(), vol.g, vol.disk, c, start, host)
        invariant regs == TaskFile(track, a, n, n - left)
      {
        if left != 1 { at := Step(track, at); }
        regs := regs + [at];
        var s := ReadOne(vol, lba, c);
        RunExtends(Map(), vol.g, vol.disk, c, start, host, s);
        host := host + [s];
        lba, left := lba + 1, left - 1;
      }
    }

    /** One sector of READ SECTORS. */
    method ReadOne(vol: Volume, lba: nat, ghost c: Chain) returns (s: Sector)
      requires vol.Valid() && vol.Owns(c) && Mounted() && Standing(vol.g, c, lba)
      requires lba + 1 + offset < Capacity(vol.g, c)
      modifies hard.file`sector, hard.file`cluster, vol`bufferedFatIndex, vol.fatBuffer, vol.sectorBuffer
      ensures vol.Valid() && Standing(vol.g, c, lba + 1)
      ensures s == VirtualBlock(Map(), vol.g, vol.disk, c, lba)
    {
      if lba + offset < 0 {
        var longs := Rdb.FakeRdb(Rdb.Shape(cylinders, track.heads, track.sectors), unit, lba);
        s := Rdb.Bytes(longs);
      } else {
        s := vol.FileReadDirect(hard.file);
        // the test in the source is `(type == HDF_FILE) | HDF_SYNTHRDB`, which always holds
        if unit == 0 && lba == 0 {
          s := Rdb.Bytes(Rdb.Patched(Rdb.Longs(s)));
        }
        NextInFile(vol.g, vol.T(), c, hard.file.sector);
        ghost var ok, links := vol.FileSeek(hard.file, 1, true, c);
      }
    }

    /** WRITE SECTORS: `data` is what the host delivers.  Blocks of the synthesized cylinder are
        dropped. */
    method WriteSectors(vol: Volume, a: Address, count: Byte, data: seq<Sector>, ghost c: Chain)
      returns (regs: seq<Address>)
      requires vol.Valid() && vol.Owns(c) && Ready(vol.g, c) && IsAddress(track, a)
      requires InRange(vol.g, c, ToLba(track, a), Count(count)) && |data| == Count(count)
      modifies hard.file`sector, hard.file`cluster, vol`bufferedFatIndex, vol`disk, vol.fatBuffer, vol.sectorBuffer
      ensures vol.Valid() && vol.T() == old(vol.T()) && hard.file.At(vol.g, c)
      ensures vol.disk == Written(Map(), vol.g, old(vol.disk), c, ToLba(track, a), data)
      ensures regs == TaskFile(track, a, Count(count), Count(count))
    {
      var lba: nat := ToLba(track, a);
      ghost var ok, links := hard.HardFileSeek(vol, if lba + offset > -1 then lba + offset else 0, c);
      regs := TakeBlocks(vol, a, lba, data, c);
    }

    /** The loop of WRITE SECTORS. */
    method TakeBlocks(vol: Volume, a: Address, start: nat, data: seq<Sector>, ghost c: Chain)
      returns (regs: seq<Address>)
      requires vol.Valid() && vol.Owns(c) && Mounted() && Standing(vol.g, c, start) && |data| > 0
      requires start + |data| + offset < Capacity(vol.g, c)
      modifies hard.file`sector, hard.file`cluster, vol`bufferedFatIndex, vol`disk, vol.fatBuffer, vol.sectorBuffer
      ensures vol.Valid() && vol.T() == old(vol.T()) && Standing(vol.g, c, start + |data|)
      ensures vol.disk == Written(Map(), vol.g, old(vol.disk), c, start, data)
      ensures regs == TaskFile(track, a, |data|, |data|)
    {
      var k, at := 0, a;
      regs := [];
      while k < |data|
        invariant 0 <= k <= |data| && vol.Valid() && vol.T() == old(vol.T()) && Standing(vol.g, c, start + k)
        invariant at == Steps(track, a, if k == |data| then k - 1 else k)
        invariant vol.disk == Written(Map(), vol.g, old(vol.disk), c, start, data[..k])
        invariant regs == TaskFile(track, a, |data|, k)
      {
        at := TakeNext(vol, at, start, data, k, old(vol.disk), c);
        regs, k := regs + [at], k + 1;
      }
      assert data[..k] == data;
    }

    /** The body of the loop. */
    method TakeNext(vol: Volume, a: Address, start: nat, data: seq<Sector>, k: nat, ghost d: Disk, ghost c: Chain)
      returns (at: Address)
      requires vol.Valid() && vol.Owns(c) && Mounted() && Standing(vol.g, c, start + k) && k < |data|
      requires start + |data| + offset < Capacity(vol.g, c)
      requires vol.disk == Written(Map(), vol.g, d, c, start, data[..k])
      modifies hard.file`sector, hard.file`cluster, vol`bufferedFatIndex, vol`disk, vol.fatBuffer, vol.sectorBuffer
      ensures vol.Valid() && vol.T() == old(vol.T()) && Standing(vol.g, c, start + k + 1)
      ensures vol.disk == Written(Map(), vol.g, d, c, start, data[..k + 1])
      ensures at == if k + 1 < |data| then Step(track, a) else a
    {
      at := a;
      if |data| - k != 1 { at := Step(track, at); }
      WriteOne(vol, start + k, data[k], c);
      WrittenStep(Map(), vol.g, d, c, start, data, k);
    }

    /** One sector of WRITE SECTORS. */
    method WriteOne(vol: Volume, lba: nat, s: Sector, ghost c: Chain)
      requires vol.Valid() && vol.Owns(c) && Mounted() && Standing(vol.g, c, lba)
      requires lba + 1 + offset < Capacity(vol.g, c)
      modifies hard.file`sector, hard.file`cluster, vol`bufferedFatIndex, vol`disk, vol.fatBuffer, vol.sectorBuffer
      ensures vol.Valid() && vol.T() == old(vol.T()) && Standing(vol.g, c, lba + 1)
      ensures vol.disk == WriteBlock(Map(), vol.g, old(vol.disk), c, lba, s)
    {
      forall i | 0 <= i < SECTOR_BYTES {
        vol.sectorBuffer[i] := s[i];
      }
      assert vol.sectorBuffer[..] == s;
      if lba + offset > -1 {
        InCapacity(vol.g, c, lba + offset);
        vol.FileWrite(hard.file, vol.sectorBuffer, c);
        NextInFile(vol.g, vol.T(), c, hard.file.sector);
        ghost var ok, links := vol.FileSeek(hard.file, 1, true, c);
      }
    }
  }

  /** What the unit adds to its image: number, geometry and offset. */
  datatype View = View(unit: nat, shape: Rdb.Shape, offset: int)

  predicate Visible(v: View, g: Geometry, c: Chain, L: int) {
    g.Valid() && v.shape.Valid() && 0 <= L && L + v.offset < Capacity(g, c)
  }

  /** Block L of the disk the Amiga sees. */
  function VirtualBlock(v: View, g: Geometry, d: Disk, c: Chain, L: nat): Sector
    requires Visible(v, g, c, L)
  {
    if L + v.offset < 0 then Rdb.Bytes(Rdb.FakeBlock(v.shape, v.unit, L))
    else
      InCapacity(g, c, L + v.offset);
      if v.unit == 0 && L == 0 then Rdb.Bytes(Rdb.Patched(Rdb.Longs(FileSector(g, d, c, L + v.offset))))
      else FileSector(g, d, c, L + v.offset)
  }

  /** Blocks of the image show as they are, apart from block 0 of unit 0, where the flags become 0x12
      and the checksum follows them. */
  predicate ShownAs(v: View, L: nat, raw: Sector, shown: Sector) {
    if v.unit != 0 || L != 0 then shown == raw
    else
      && Rdb.BeLong(shown, 5) == 0x12
      && (forall i :: 0 <= i < Rdb.LONGS && i !in {2, 5} ==> Rdb.BeLong(shown, i) == Rdb.BeLong(raw, i))
      && (forall n :: 6 <= n <= Rdb.LONGS ==> SameSum(raw, shown, n))
  }

  predicate SameSum(raw: Sector, shown: Sector, n: nat)
    requires n <= Rdb.LONGS
  {
    Rdb.Sum(Rdb.Longs(shown)[..n]) % WORD == Rdb.Sum(Rdb.Longs(raw)[..n]) % WORD
  }

  lemma ImageShows(v: View, g: Geometry, d: Disk, c: Chain, L: nat, shown: Sector)
    requires IsVirtual(v, g, d, c, L, shown) && L + v.offset >= 0
    ensures (L + v.offset) / g.clusterSize < |c| && ShownAs(v, L, FileSector(g, d, c, L + v.offset), shown)
  {
    InCapacity(g, c, L + v.offset);
    if v.unit == 0 && L == 0 {
      var raw := FileSector(g, d, c, L + v.offset);
      Rdb.BytesCarry(Rdb.Patched(Rdb.Longs(raw)));
      PatchShows(v, Rdb.Longs(raw), raw, shown);
    }
  }

  lemma PatchShows(v: View, p: seq<Rdb.Long>, raw: Sector, shown: Sector)
    requires |p| == Rdb.LONGS && Rdb.Carries(raw, p) && Rdb.Carries(shown, Rdb.Patched(p)) && v.unit == 0
    ensures ShownAs(v, 0, raw, shown)
  {
    forall n | 6 <= n <= Rdb.LONGS
      ensures SameSum(raw, shown, n)
    {
      Rdb.PatchedCarries(p, raw, shown, n);
    }
    Rdb.PatchedCarries(p, raw, shown, 6);
  }

  /** Blocks r and q describe a drive whose one partition takes up everything behind the first
      cylinder, which is as long as the image is shifted; for an image of `total` sectors and the
      geometry of Mount, the partition is as long as the image up to its last complete cylinder. */
  predicate Describes(v: View, r: Sector, q: Sector, total: nat) {
    var drive, part := Rdb.DriveIn(r), Rdb.PartitionIn(q);
    && Rdb.Says(r, 0, "RDSK") && Rdb.BeLong(r, 7) == 1 && Rdb.Says(q, 0, "PART")
    && drive.heads * drive.sectors == drive.cylinderBlocks
    && drive.lowCylinder * drive.cylinderBlocks == part.Start() == -v.offset
    && drive.lowCylinder == part.low && drive.highCylinder == part.high
    && part.Start() + part.Size() == v.shape.cylinders * v.shape.heads * v.shape.sectors
    && (v.shape == Rdb.Shape(total / 32 + 1, 1, 32) ==> part.Size() == total - total % 32)
  }

  predicate Synthesized(v: View) {
    && v.shape.Valid() && v.shape.cylinders > 0 && v.shape.heads * v.shape.sectors > 1
    && v.offset == -(v.shape.heads * v.shape.sectors)
  }

  lemma BlocksDescribe(v: View, r: Sector, q: Sector, total: nat)
    requires Synthesized(v)
    requires Rdb.Carries(r, Rdb.FakeBlock(v.shape, v.unit, 0)) && Rdb.Carries(q, Rdb.FakeBlock(v.shape, v.unit, 1))
    ensures Describes(v, r, q, total)
  {
    Rdb.RdskNames(v.shape, v.unit, r);
    Rdb.PartNames(v.shape, v.unit, q);
    Rdb.DriveFields(v.shape, v.unit, r);
    Rdb.BlocksAgree(v.shape, v.unit, r, q);
  }

  /** Block m of the partition that q describes is sector m of the image. */
  ghost predicate FindsImage(v: View, g: Geometry, d: Disk, c: Chain, q: Sector, m: nat) {
    var block := Rdb.PartitionIn(q).Start() + m;
    Visible(v, g, c, block) && m / g.clusterSize < |c| && VirtualBlock(v, g, d, c, block) == FileSector(g, d, c, m)
  }

  /** With a synthesized cylinder the host, going by the two blocks it reads first, finds the image. */
  lemma HostFindsImage(v: View, g: Geometry, d: Disk, c: Chain, r: Sector, q: Sector, m: nat, total: nat)
    requires Synthesized(v) && g.Valid() && m < Capacity(g, c)
    requires IsVirtual(v, g, d, c, 0, r) && IsVirtual(v, g, d, c, 1, q)
    ensures Describes(v, r, q, total) && FindsImage(v, g, d, c, q, m)
  {
    Rdb.BytesCarry(Rdb.FakeBlock(v.shape, v.unit, 0));
    Rdb.BytesCarry(Rdb.FakeBlock(v.shape, v.unit, 1));
    BlocksDescribe(v, r, q, total);
    DescribedFinds(v, g, d, c, r, q, m, total);
  }

  lemma DescribedFinds(v: View, g: Geometry, d: Disk, c: Chain, r: Sector, q: Sector, m: nat, total: nat)
    requires Synthesized(v) && g.Valid() && m < Capacity(g, c) && Describes(v, r, q, total)
    ensures FindsImage(v, g, d, c, q, m)
  {
    PartitionShows(v, g, d, c, m);
  }

  lemma PartitionShows(v: View, g: Geometry, d: Disk, c: Chain, m: nat)
    requires Synthesized(v) && g.Valid() && m < Capacity(g, c)
    ensures m / g.clusterSize < |c| && Visible(v, g, c, m - v.offset)
    ensures VirtualBlock(v, g, d, c, m - v.offset) == FileSector(g, d, c, m)
  {
    InCapacity(g, c, m);
  }

  /** `host` is the run of virtual blocks that starts at L. */
  ghost predicate IsVirtualRun(v: View, g: Geometry, d: Disk, c: Chain, L: nat, host: seq<Sector>) {
    forall k :: 0 <= k < |host| ==> IsVirtual(v, g, d, c, L + k, host[k])
  }

  ghost predicate IsVirtual(v: View, g: Geometry, d: Disk, c: Chain, L: nat, s: Sector) {
    Visible(v, g, c, L) && s == VirtualBlock(v, g, d, c, L)
  }

  lemma RunExtends(v: View, g: Geometry, d: Disk, c: Chain, L: nat, host: seq<Sector>, s: Sector)
    requires IsVirtualRun(v, g, d, c, L, host) && Visible(v, g, c, L + |host|)
    requires s == VirtualBlock(v, g, d, c, L + |host|)
    ensures IsVirtualRun(v, g, d, c, L, host + [s])
  {
    var more: seq<Sector> := host + [s];
    forall k | 0 <= k < |more|
      ensures IsVirtual(v, g, d, c, L + k, more[k])
    {
      if k < |host| {
        assert more[k] == host[k] && IsVirtual(v, g, d, c, L + k, host[k]);
      } else {
        assert more[k] == s && L + k == L + |host|;
      }
    }
  }

  /** The card after the host wrote block L. */
  function WriteBlock(v: View, g: Geometry, d: Disk, c: Chain, L: nat, s: Sector): Disk
    requires g.clusterSize > 0
  {
    if L + v.offset < 0 || |c| <= (L + v.offset) / g.clusterSize then d
    else d[FileLba(g, c, L + v.offset) := s]
  }

  /** The card after the host wrote `data` from block L on. */
  function Written(v: View, g: Geometry, d: Disk, c: Chain, L: nat, data: seq<Sector>): Disk
    requires g.clusterSize > 0
  {
    if |data| == 0 then d
    else WriteBlock(v, g, Written(v, g, d, c, L, data[..|data| - 1]), c, L + |data| - 1, data[|data| - 1])
  }

  lemma WrittenStep(v: View, g: Geometry, d: Disk, c: Chain, L: nat, data: seq<Sector>, k: nat)
    requires g.clusterSize > 0 && k < |data|
    ensures Written(v, g, d, c, L, data[..k + 1])
         == WriteBlock(v, g, Written(v, g, d, c, L, data[..k]), c, L + k, data[k])
  {
    assert data[..k + 1][..k] == data[..k];
  }

  /** How block L of the image shows on the virtual disk. */
  function Shown(v: View, L: nat, s: Sector): Sector {
    if v.unit == 0 && L == 0 then Rdb.Bytes(Rdb.Patched(Rdb.Longs(s))) else s
  }

  /** Reading back: after a write of `data` at L the virtual disk is the old one with the blocks
      L .. L+|data|-1 replaced, except inside the synthesized cylinder, where nothing changed. */
  lemma {:induction false} WrittenReadsBack(v: View, g: Geometry, t: Table, d: Disk, c: Chain, L: nat,
                                            data: seq<Sector>, m: nat)
    requires Visible(v, g, c, m) && g.shape.clusterLimit <= |t| && IsChain(g.shape, t, c)
    requires |data| > 0 ==> Visible(v, g, c, L + |data| - 1)
    ensures VirtualBlock(v, g, Written(v, g, d, c, L, data), c, m)
         == if L <= m < L + |data| && m + v.offset >= 0 then Shown(v, m, data[m - L])
            else VirtualBlock(v, g, d, c, m)
  {
    if |data| > 0 {
      var k := |data| - 1;
      WrittenReadsBack(v, g, t, d, c, L, data[..k], m);
      BlockReadsBack(v, g, t, Written(v, g, d, c, L, data[..k]), c, L + k, data[k], m);
    }
  }

  lemma BlockReadsBack(v: View, g: Geometry, t: Table, d: Disk, c: Chain, L: nat, s: Sector, m: nat)
    requires Visible(v, g, c, m) && g.shape.clusterLimit <= |t| && IsChain(g.shape, t, c) && Visible(v, g, c, L)
    ensures VirtualBlock(v, g, WriteBlock(v, g, d, c, L, s), c, m)
         == if m == L && m + v.offset >= 0 then Shown(v, m, s) else VirtualBlock(v, g, d, c, m)
  {
    if L + v.offset >= 0 && m + v.offset >= 0 {
      var d' := WriteBlock(v, g, d, c, L, s);
      InCapacity(g, c, L + v.offset);
      ShownBlock(v, g, d, c, m);
      ShownBlock(v, g, d', c, m);
      WriteIsLocal(g, t, d, c, L + v.offset, s, c, m + v.offset);
    }
  }

  lemma ShownBlock(v: View, g: Geometry, d: Disk, c: Chain, m: nat)
    requires Visible(v, g, c, m) && m + v.offset >= 0
    ensures (m + v.offset) / g.clusterSize < |c|
    ensures VirtualBlock(v, g, d, c, m) == Shown(v, m, FileSector(g, d, c, m + v.offset))
  {
    InCapacity(g, c, m + v.offset);
  }

  /** No other file on the volume notices. */
  lemma {:induction false} WrittenIsIsolated(v: View, g: Geometry, t: Table, d: Disk, c: Chain, L: nat,
                                             data: seq<Sector>, c': Chain, m: nat)
    requires g.Valid() && g.shape.clusterLimit <= |t| && IsChain(g.shape, t, c) && IsChain(g.shape, t, c')
    requires Disjoint(c, c') && m / g.clusterSize < |c'|
    ensures FileSector(g, Written(v, g, d, c, L, data), c', m) == FileSector(g, d, c', m)
  {
    if |data| > 0 {
      var k := |data| - 1;
      WrittenIsIsolated(v, g, t, d, c, L, data[..k], c', m);
      if L + k + v.offset >= 0 && (L + k + v.offset) / g.clusterSize < |c| {
        assert c' != c by { assert c[0] in c; }
        WriteIsLocal(g, t, Written(v, g, d, c, L, data[..k]), c, L + k + v.offset, data[k], c', m);
      }
    }
  }

  /** The addresses in the task file during the first k sectors of an n-sector transfer from a: each
      sector shows its successor, the last one itself. */
  function TaskFile(g: Track, a: Address, n: nat, k: nat): (regs: seq<Address>)
    ensures |regs| == k
  {
    if k == 0 then [] else TaskFile(g, a, n, k - 1) + [Steps(g, a, if k < n then k else k - 1)]
  }

  lemma {:induction false} TaskFileAt(g: Track, a: Address, n: nat, k: nat, i: nat)
    requires i < k
    ensures TaskFile(g, a, n, k)[i] == Steps(g, a, if i + 1 < n then i + 1 else i)
  {
    if i < k - 1 { TaskFileAt(g, a, n, k - 1, i); }
  }

  /** While sector i of n is transferred, the host finds the valid address of the next one, and at the
      end that of the last one. */
  lemma TaskFileShows(g: Track, a: Address, n: nat, i: nat)
    requires g.Valid() && IsAddress(g, a) && i < n && ToLba(g, a) + n <= HALF * g.heads * g.sectors
    ensures var shown := TaskFile(g, a, n, n)[i];
            IsAddress(g, shown) && ToLba(g, shown) == ToLba(g, a) + if i + 1 < n then i + 1 else n - 1
  {
    TaskFileAt(g, a, n, n, i);
    StepsAdvance(g, a, if i + 1 < n then i + 1 else i);
  }

  function Count(count: Byte): (n: nat)
    ensures 1 <= n <= 256 && n % 256 == count
  {
    if count == 0 then 0x100 else count
  }

  lemma NextInFile(g: Geometry, t: Table, c: Chain, n: nat)
    requires g.Valid() && g.shape.clusterLimit <= |t| && IsChain(g.shape, t, c)
    ensures n + 1 < Capacity(g, c) ==> n + 1 < WORD && (n + 1) / g.clusterSize < |c|
  {
    CapacityFits(g, t, c);
    InCapacity(g, c, n + 1);
  }
}
