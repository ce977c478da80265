/** Root directory entries: find, create, update. */
module Directory {
  import opened Words
  import opened Chains
  import opened Disks
  import opened FatVolume

  const SLOT_EMPTY: Byte := 0
  const SLOT_DELETED: Byte := 0xE5
  const DATE_2009_09_01: nat := 0x3B21
  const PER_SECTOR: nat := 16
  const ENTRY_BYTES: nat := 32
  const NAME_BYTES: nat := 11

  type Entry = s: seq<Byte> | |s| == ENTRY_BYTES witness seq(ENTRY_BYTES, _ => 0)

  function EntryIn(s: Sector, i: nat): (r: Entry)
    requires i < PER_SECTOR
  {
    s[ENTRY_BYTES * i..ENTRY_BYTES * i + ENTRY_BYTES]
  }

  function WithSlot(s: Sector, i: nat, p: Entry): (r: Sector)
    requires i < PER_SECTOR
  {
    seq(SECTOR_BYTES, b requires 0 <= b < SECTOR_BYTES => if b / ENTRY_BYTES == i then p[b % ENTRY_BYTES] else s[b])
  }

  lemma WithSlotReads(s: Sector, i: nat, p: Entry, k: nat)
    requires i < PER_SECTOR && k < PER_SECTOR
    ensures EntryIn(WithSlot(s, i, p), k) == if k == i then p else EntryIn(s, k)
  {
    forall b | 0 <= b < ENTRY_BYTES
      ensures EntryIn(WithSlot(s, i, p), k)[b] == if k == i then p[b] else EntryIn(s, k)[b]
    {
      assert (ENTRY_BYTES * k + b) / ENTRY_BYTES == k && (ENTRY_BYTES * k + b) % ENTRY_BYTES == b;
    }
  }

  // ---------- the directory as a list of sectors ----------

  /** lbas are the sectors of the root directory in order: a fixed region on FAT16, the sectors
      of the chain rc on FAT32. */
  ghost predicate Listing(g: Geometry, t: Table, rc: Chain, lbas: seq<nat>) {
    && g.Valid() && |t| == g.Entries()
    && (if g.shape.fat32 then
          && IsChain(g.shape, t, rc) && rc[0] == g.rootCluster && |lbas| == Capacity(g, rc)
          && g.rootStart == ClusterStart(g, rc[0])
          && forall k {:trigger ListedAt(g, rc, lbas, k)} :: 0 <= k < |lbas| ==> ListedAt(g, rc, lbas, k)
        else
          && g.FatEnd() <= g.rootStart && g.rootStart + g.rootSectors <= g.dataStart && |lbas| == g.rootSectors
          && forall k :: 0 <= k < |lbas| ==> lbas[k] == g.rootStart + k)
  }

  ghost predicate ListedAt(g: Geometry, rc: Chain, lbas: seq<nat>, k: nat)
    requires g.Valid() && k < |lbas|
  {
    k / g.clusterSize < |rc| && lbas[k] == FileLba(g, rc, k)
  }

  /** Directory sectors are distinct and none of them is a FAT sector. */
  lemma ListingIsSeparate(g: Geometry, t: Table, rc: Chain, lbas: seq<nat>)
    requires Listing(g, t, rc, lbas)
    ensures Separate(g, lbas)
  {
    if g.shape.fat32 {
      forall k | 0 <= k < |lbas|
        ensures !InFat(g, lbas[k])
      {
        assert ListedAt(g, rc, lbas, k);
        LbaInData(g, rc[k / g.clusterSize], k);
      }
      forall j, k | 0 <= j < k < |lbas|
        ensures lbas[j] != lbas[k]
      {
        assert ListedAt(g, rc, lbas, j) && ListedAt(g, rc, lbas, k);
        if lbas[j] == lbas[k] {
          SameLbaSameSector(g, t, rc, j, rc, k);
          assert false;
        }
      }
    }
  }

  ghost predicate Separate(g: Geometry, lbas: seq<nat>) {
    && (forall k :: 0 <= k < |lbas| ==> !InFat(g, lbas[k]))
    && (forall j, k :: 0 <= j < k < |lbas| ==> lbas[j] != lbas[k])
  }

  function Slots(lbas: seq<nat>): nat { PER_SECTOR * |lbas| }

  function SlotOf(d: Disk, lbas: seq<nat>, e: nat): (r: Entry)
    requires e < Slots(lbas)
  {
    EntryIn(Rd(d, lbas[e / PER_SECTOR]), e % PER_SECTOR)
  }

  // ---------- matching ----------

  /** strncmp(a, b, n) == 0. */
  predicate StrNEqual(a: seq<Byte>, b: seq<Byte>, n: nat)
    requires n <= |a| && n <= |b|
    decreases |a|
  {
    n == 0 || (a[0] == b[0] && (a[0] == 0 || StrNEqual(a[1..], b[1..], n - 1)))
  }

  /** Without NUL bytes strncmp compares all n characters. */
  lemma {:induction false} StrNEqualMeans(a: seq<Byte>, b: seq<Byte>, n: nat)
    requires n <= |a| && n <= |b| && 0 !in b[..n]
    ensures StrNEqual(a, b, n) <==> a[..n] == b[..n]
  {
    if n > 0 {
      assert a[..n] == [a[0]] + a[1..][..n - 1] && b[..n] == [b[0]] + b[1..][..n - 1];
      StrNEqualMeans(a[1..], b[1..], n - 1);
    }
  }

  /** Attributes 0x08 or 0x10 are set. */
  predicate NotAFile(attributes: Byte) {
    (attributes / 8) % 4 != 0
  }

  predicate Matches(p: Entry, name: seq<Byte>)
    requires |name| == NAME_BYTES
  {
    && p[0] != SLOT_EMPTY && p[0] != SLOT_DELETED
    && !NotAFile(p[11])
    && StrNEqual(p, name, NAME_BYTES)
  }

  /** What a scan looks for: the entry of a file, or with no name a slot never used. */
  datatype Wanted = Named(name: seq<Byte>) | Empty
  {
    predicate Valid() { Named? ==> |name| == NAME_BYTES }

    predicate Accepts(p: Entry)
      requires Valid()
    {
      if Empty? then p[0] == SLOT_EMPTY else Matches(p, name)
    }
  }

  // ---------- entries ----------

  function StartCluster(g: Geometry, p: Entry): nat {
    Le16(p, 26) + if g.shape.fat32 then Le16(p, 20) % 0x1000 * HALF else 0
  }

  /** The low half word, and above it (FAT32) the low 12 bits of the high one. */
  lemma StartClusterBits(g: Geometry, p: Entry)
    ensures StartCluster(g, p) % HALF == p[26] as int + 0x100 * p[27] as int
    ensures StartCluster(g, p) / HALF == if g.shape.fat32 then p[20] as int + 0x100 * (p[21] as int % 0x10) else 0
  {
    var low, high := Le16(p, 26), if g.shape.fat32 then Le16(p, 20) % 0x1000 else 0;
    DivModUnique(StartCluster(g, p), HALF, high, low);
    DivModUnique(Le16(p, 20), 0x1000, p[21] as int / 0x10, p[20] as int + 0x100 * (p[21] as int % 0x10));
  }

  function FileSize(p: Entry): nat { Le32(p, 28) }

  /** What FileCreate stores: name, attributes, fixed dates, start cluster and size. */
  predicate Describes(g: Geometry, p: Entry, name: seq<Byte>, attributes: Byte, cluster: nat, size: nat) {
    && p[..NAME_BYTES] == name && p[11] == attributes
    && Le16(p, 16) == Le16(p, 18) == Le16(p, 24) == DATE_2009_09_01
    && StartCluster(g, p) == cluster && FileSize(p) == size
  }

  /** Half words stored one after the other. */
  function PutFields(p: Entry, at: seq<nat>, v: seq<nat>): (r: Entry)
    requires |at| == |v| && forall i :: 0 <= i < |at| ==> at[i] + 2 <= ENTRY_BYTES
  {
    if |at| == 0 then p else PutLe16(PutFields(p, at[..|at| - 1], v[..|at| - 1]), at[|at| - 1], v[|at| - 1])
  }

  /** A field survives the later stores when none of them overlaps it. */
  lemma {:induction false} PutFieldsReads(p: Entry, at: seq<nat>, v: seq<nat>, i: nat)
    requires |at| == |v| && i < |at| && v[i] < HALF
    requires forall k :: 0 <= k < |at| ==> at[k] + 2 <= ENTRY_BYTES
    requires forall k :: i < k < |at| ==> at[k] + 2 <= at[i] || at[i] + 2 <= at[k]
    ensures Le16(PutFields(p, at, v), at[i]) == v[i]
    decreases |at|
  {
    var last := |at| - 1;
    if i < last {
      PutFieldsReads(p, at[..last], v[..last], i);
    } else {
      PutLe16ReadsBack(PutFields(p, at[..last], v[..last]), at[i], v[i]);
    }
  }

  lemma {:induction false} PutFieldsKeeps(p: Entry, at: seq<nat>, v: seq<nat>, b: nat)
    requires |at| == |v| && b < ENTRY_BYTES
    requires forall k :: 0 <= k < |at| ==> at[k] + 2 <= ENTRY_BYTES && (b < at[k] || at[k] + 2 <= b)
    ensures PutFields(p, at, v)[b] == p[b]
  {
    if |at| > 0 { PutFieldsKeeps(p, at[..|at| - 1], v[..|at| - 1], b); }
  }

  /** Offsets of CreateDate, AccessDate, HighCluster, ModifyDate, StartCluster and FileSize; the
      times and flags stay zero. */
  const FIELDS: seq<nat> := [16, 18, 20, 24, 26, 28, 30]

  /** The entry FileCreate fills field by field. */
  function NewEntry(g: Geometry, name: seq<Byte>, attributes: Byte, cluster: nat, size: nat): (p: Entry)
    requires |name| == NAME_BYTES
  {
    PutFields(name + [attributes] + seq(20, _ => 0), FIELDS,
      [DATE_2009_09_01, DATE_2009_09_01, if g.shape.fat32 then cluster / HALF % HALF else 0, DATE_2009_09_01,
       cluster % HALF, size % HALF, size / HALF % HALF])
  }

  lemma NewEntryReads(g: Geometry, name: seq<Byte>, attributes: Byte, cluster: nat, size: nat)
    requires g.shape.Valid() && |name| == NAME_BYTES && cluster < g.shape.clusterLimit && size < WORD
    ensures Describes(g, NewEntry(g, name, attributes, cluster, size), name, attributes, cluster, size)
  {
    var blank := name + [attributes] + seq(20, _ => 0);
    var v := [DATE_2009_09_01, DATE_2009_09_01, if g.shape.fat32 then cluster / HALF % HALF else 0, DATE_2009_09_01,
              cluster % HALF, size % HALF, size / HALF % HALF];
    FieldsRead(blank, v);
    HalfWords(cluster);
    HalfWords(size);
    var p := PutFields(blank, FIELDS, v);
    assert p[..NAME_BYTES] == p[..12][..NAME_BYTES] == name;
    assert FileSize(p) == v[5] + HALF * v[6];
    assert StartCluster(g, p) == v[4] + if g.shape.fat32 then v[2] % 0x1000 * HALF else 0;
  }

  /** Where the fields stand in the entry, which is blank otherwise. */
  lemma EntryLayout(g: Geometry, name: seq<Byte>, attributes: Byte, cluster: nat, size: nat)
    requires g.shape.Valid() && |name| == NAME_BYTES && cluster < g.shape.clusterLimit && size < WORD
    ensures var p := NewEntry(g, name, attributes, cluster, size);
            && p[..11] == name && p[11] == attributes
            && p[26] as int + 0x100 * p[27] as int + 0x1_0000 * p[20] as int + 0x100_0000 * p[21] as int == cluster
            && p[28] as int + 0x100 * p[29] as int + 0x1_0000 * p[30] as int + 0x100_0000 * p[31] as int == size
            && (forall at :: at in {16, 18, 24} ==> IsDate(Le16(p, at), 2009, 9, 1))
            && (forall b :: 12 <= b < 16 || 22 <= b < 24 ==> p[b] == 0)
  {
    var blank := name + [attributes] + seq(20, _ => 0);
    var v := [DATE_2009_09_01, DATE_2009_09_01, if g.shape.fat32 then cluster / HALF % HALF else 0, DATE_2009_09_01,
              cluster % HALF, size % HALF, size / HALF % HALF];
    NewEntryReads(g, name, attributes, cluster, size);
    FieldsRead(blank, v);
    HalfWords(cluster);
    HalfWords(size);
    forall b | 12 <= b < 16 || 22 <= b < 24
      ensures NewEntry(g, name, attributes, cluster, size)[b] == 0
    {
      PutFieldsKeeps(blank, FIELDS, v, b);
    }
  }

  /** The format of dates in a directory entry. */
  predicate IsDate(date: nat, year: nat, month: nat, day: nat) {
    date == (year - 1980) * 512 + month * 32 + day
  }

  lemma HalfWords(n: nat)
    requires n < WORD
    ensures n == n % HALF + n / HALF % HALF * HALF
    ensures n < 0x1000_0000 ==> n / HALF % HALF % 0x1000 == n / HALF % HALF
    ensures n < HALF ==> n % HALF == n
  {
  }

  lemma FieldsRead(blank: Entry, v: seq<nat>)
    requires |v| == |FIELDS| && forall i :: 0 <= i < |v| ==> v[i] < HALF
    ensures var p := PutFields(blank, FIELDS, v);
            && p[..12] == blank[..12] && Le16(p, 16) == v[0] && Le16(p, 18) == v[1] && Le16(p, 20) == v[2]
            && Le16(p, 24) == v[3] && Le16(p, 26) == v[4] && Le16(p, 28) == v[5] && Le16(p, 30) == v[6]
  {
    forall b | 0 <= b < 12
      ensures PutFields(blank, FIELDS, v)[b] == blank[b]
    {
      PutFieldsKeeps(blank, FIELDS, v, b);
    }
    PutFieldsReads(blank, FIELDS, v, 0);
    PutFieldsReads(blank, FIELDS, v, 1);
    PutFieldsReads(blank, FIELDS, v, 2);
    PutFieldsReads(blank, FIELDS, v, 3);
    PutFieldsReads(blank, FIELDS, v, 4);
    PutFieldsReads(blank, FIELDS, v, 5);
    PutFieldsReads(blank, FIELDS, v, 6);
  }

  /** The entry UpdateEntry writes over p. */
  function Updated(p: Entry, name: seq<Byte>, attributes: Byte, size: nat): (r: Entry)
    requires |name| == NAME_BYTES
    ensures r[..NAME_BYTES] == name && r[11] == attributes && r[12..28] == p[12..28]
    ensures size < WORD ==> FileSize(r) == size
    ensures forall g: Geometry :: StartCluster(g, r) == StartCluster(g, p)
  {
    var q := PutLe32(name + [attributes] + p[12..], 28, size % WORD);
    if size < WORD then (PutLe32ReadsBack(name + [attributes] + p[12..], 28, size); NoWrap(size); q) else q
  }

  // ---------- walking the directory ----------

  /** No slot below n is accepted. */
  ghost predicate NoneBelow(d: Disk, lbas: seq<nat>, w: Wanted, n: nat)
    requires w.Valid()
  {
    forall k :: 0 <= k < n && k < Slots(lbas) ==> !w.Accepts(SlotOf(d, lbas, k))
  }

  ghost predicate Consecutive(lbas: seq<nat>, base: nat, count: nat, first: nat) {
    && base + count <= |lbas|
    && forall k :: base <= k < base + count ==> lbas[k] == first + (k - base)
  }

  /** Slot e is the first accepted one, and its sector is in the sector buffer. */
  ghost predicate Located(d: Disk, buffer: seq<Byte>, lbas: seq<nat>, w: Wanted, e: nat, lba: nat, index: nat)
    requires w.Valid()
  {
    && e < Slots(lbas) && w.Accepts(SlotOf(d, lbas, e)) && NoneBelow(d, lbas, w, e)
    && lba == lbas[e / PER_SECTOR] && index == e % PER_SECTOR
    && buffer == Rd(d, lba)
  }

  /** One cluster (or the FAT16 root region): the slots of `count` consecutive sectors. */
  method ScanRun(vol: Volume, first: nat, count: nat, w: Wanted, ghost lbas: seq<nat>, ghost base: nat)
    returns (found: bool, lba: nat, index: nat, ghost e: nat)
    requires vol.Valid() && w.Valid() && Consecutive(lbas, base, count, first)
    requires NoneBelow(vol.disk, lbas, w, PER_SECTOR * base)
    modifies vol.sectorBuffer
    ensures vol.Valid()
    ensures if found then Located(vol.disk, vol.sectorBuffer[..], lbas, w, e, lba, index)
            else NoneBelow(vol.disk, lbas, w, PER_SECTOR * (base + count))
  {
    var i := 0;
    while i < PER_SECTOR * count
      invariant vol.Valid() && i <= PER_SECTOR * count
      invariant i % PER_SECTOR != 0 ==> vol.sectorBuffer[..] == Rd(vol.disk, first + i / PER_SECTOR)
      invariant NoneBelow(vol.disk, lbas, w, PER_SECTOR * base + i)
    {
      var p := NextEntry(vol, first, i);
      SlotHere(vol.disk, lbas, base, count, first, i);
      if w.Accepts(p) {
        return true, first + i / PER_SECTOR, i % PER_SECTOR, PER_SECTOR * base + i;
      }
      i := i + 1;
    }
    return false, 0, 0, 0;
  }

  /** Entry i of the run; with the first one of a sector, the sector is loaded. */
  method NextEntry(vol: Volume, first: nat, i: nat) returns (p: Entry)
    requires vol.Valid() && (i % PER_SECTOR != 0 ==> vol.sectorBuffer[..] == Rd(vol.disk, first + i / PER_SECTOR))
    modifies vol.sectorBuffer
    ensures vol.Valid() && vol.sectorBuffer[..] == Rd(vol.disk, first + i / PER_SECTOR)
    ensures p == EntryIn(vol.sectorBuffer[..], i % PER_SECTOR)
  {
    if i % PER_SECTOR == 0 { vol.LoadSector(first + i / PER_SECTOR); }
    p := EntryIn(vol.sectorBuffer[..], i % PER_SECTOR);
  }

  /** Slot i of the run in the listing. */
  lemma SlotHere(d: Disk, lbas: seq<nat>, base: nat, count: nat, first: nat, i: nat)
    requires Consecutive(lbas, base, count, first) && i < PER_SECTOR * count
    ensures (PER_SECTOR * base + i) / PER_SECTOR == base + i / PER_SECTOR < |lbas|
    ensures (PER_SECTOR * base + i) % PER_SECTOR == i % PER_SECTOR && PER_SECTOR * base + i < Slots(lbas)
    ensures lbas[base + i / PER_SECTOR] == first + i / PER_SECTOR
    ensures SlotOf(d, lbas, PER_SECTOR * base + i) == EntryIn(Rd(d, first + i / PER_SECTOR), i % PER_SECTOR)
  {
    assert lbas[base + i / PER_SECTOR] == first + (base + i / PER_SECTOR - base);
  }

  /** The loop shared by FileOpen and FileCreate. */
  method FindSlot(vol: Volume, w: Wanted, ghost rc: Chain, ghost lbas: seq<nat>)
    returns (found: bool, lba: nat, index: nat, ghost e: nat)
    requires vol.Valid() && w.Valid() && Listing(vol.g, vol.T(), rc, lbas)
    modifies vol`bufferedFatIndex, vol.fatBuffer, vol.sectorBuffer
    ensures vol.Valid()
    ensures if found then Located(vol.disk, vol.sectorBuffer[..], lbas, w, e, lba, index)
            else NoneBelow(vol.disk, lbas, w, Slots(lbas))
    ensures found <==> !NoneBelow(vol.disk, lbas, w, Slots(lbas))
  {
    if vol.g.shape.fat32 {
      found, lba, index, e := FindSlotInChain(vol, w, rc, lbas);
    } else {
      found, lba, index, e := ScanRun(vol, vol.g.rootStart, vol.g.rootSectors, w, lbas, 0);
    }
  }

  /** The walk over the clusters of a FAT32 root directory. */
  method FindSlotInChain(vol: Volume, w: Wanted, ghost rc: Chain, ghost lbas: seq<nat>)
    returns (found: bool, lba: nat, index: nat, ghost e: nat)
    requires vol.Valid() && w.Valid() && Listing(vol.g, vol.T(), rc, lbas) && vol.g.shape.fat32
    modifies vol`bufferedFatIndex, vol.fatBuffer, vol.sectorBuffer
    ensures vol.Valid()
    ensures if found then Located(vol.disk, vol.sectorBuffer[..], lbas, w, e, lba, index)
            else NoneBelow(vol.disk, lbas, w, Slots(lbas))
    ensures found <==> !NoneBelow(vol.disk, lbas, w, Slots(lbas))
  {
    var sector, cluster := vol.g.rootStart, vol.g.rootCluster;
    ghost var q: nat, base: nat := 0, 0;
    while true
      invariant vol.Valid() && q < |rc| && 2 <= cluster == rc[q] && base == vol.g.clusterSize * q
      invariant sector == ClusterStart(vol.g, cluster)
      invariant NoneBelow(vol.disk, lbas, w, PER_SECTOR * base)
      decreases |rc| - q
    {
      RunAt(vol.g, vol.T(), rc, lbas, q);
      found, lba, index, e := ScanRun(vol, sector, vol.g.clusterSize, w, lbas, base);
      if found { return; }
      cluster := vol.NextCluster(cluster);
      if cluster >= 0x0FFF_FFF8 { return; }
      sector := ClusterStart(vol.g, cluster);
      q, base := q + 1, base + vol.g.clusterSize;
    }
  }

  /** Cluster q of the directory holds the next clusterSize sectors of the listing. */
  lemma RunAt(g: Geometry, t: Table, rc: Chain, lbas: seq<nat>, q: nat)
    requires Listing(g, t, rc, lbas) && g.shape.fat32 && q < |rc|
    ensures 2 <= rc[q] < g.shape.clusterLimit && g.shape.Link(t[rc[q]]) == Successor(g.shape, rc, q)
    ensures q + 1 < |rc| ==> 2 <= rc[q + 1] < 0x0FFF_FFF8
    ensures q + 1 == |rc| ==> Successor(g.shape, rc, q) >= 0x0FFF_FFF8
    ensures g.clusterSize * (q + 1) == g.clusterSize * q + g.clusterSize
    ensures q + 1 == |rc| ==> g.clusterSize * (q + 1) == |lbas|
    ensures Consecutive(lbas, g.clusterSize * q, g.clusterSize, ClusterStart(g, rc[q]))
  {
    MulMonotone(g.clusterSize, q + 1, |rc|);
    forall k | g.clusterSize * q <= k < g.clusterSize * q + g.clusterSize
      ensures lbas[k] == ClusterStart(g, rc[q]) + (k - g.clusterSize * q)
    {
      assert ListedAt(g, rc, lbas, k);
      DivModUnique(k, g.clusterSize, q, k - g.clusterSize * q);
      LbaInData(g, rc[q], k);
    }
  }

  // ---------- open, create, update ----------

  method FileOpen(vol: Volume, file: FileHandle, name: seq<Byte>, ghost rc: Chain, ghost lbas: seq<nat>)
    returns (ok: bool, ghost e: nat)
    requires vol.Valid() && |name| == NAME_BYTES && Listing(vol.g, vol.T(), rc, lbas)
    modifies vol`bufferedFatIndex, vol.fatBuffer, vol.sectorBuffer, file
    ensures vol.Valid()
    ensures if ok then e < Slots(lbas) && Matches(SlotOf(vol.disk, lbas, e), name)
                       && NoneBelow(vol.disk, lbas, Named(name), e) && Opened(vol.g, vol.disk, lbas, file, e)
            else NoneBelow(vol.disk, lbas, Named(name), Slots(lbas)) && Cleared(file)
  {
    var lba, index;
    ok, lba, index, e := FindSlot(vol, Named(name), rc, lbas);
    if ok {
      var p := EntryIn(vol.sectorBuffer[..], index);
      file.Describe(p[..NAME_BYTES], p[11], FileSize(p));
      file.Place(StartCluster(vol.g, p), 0, lba, index);
    } else {
      file.Describe([], 0, 0);
      file.Place(0, 0, 0, 0);
    }
  }

  /** What FileOpen takes over from slot e.  (strncpy stops at a NUL; the names opened here have none.) */
  ghost predicate Opened(g: Geometry, d: Disk, lbas: seq<nat>, file: FileHandle, e: nat)
    requires e < Slots(lbas)
    reads file
  {
    var p := SlotOf(d, lbas, e);
    && file.name == p[..NAME_BYTES] && file.attributes == p[11] && file.size == FileSize(p)
    && file.startCluster == file.cluster == StartCluster(g, p)
    && file.sector == 0 && file.clusterChange == 0
    && file.entrySector == lbas[e / PER_SECTOR] && file.entryIndex == e % PER_SECTOR
  }

  ghost predicate Cleared(file: FileHandle)
    reads file
  {
    file.size == 0 && file.cluster == 0 && file.startCluster == 0 && file.sector == 0 && file.clusterChange == 0
  }

  /** Slot e of the directory became p; no other slot and no sector outside the directory and the
      FAT changed. */
  ghost predicate Stored(g: Geometry, d: Disk, d': Disk, lbas: seq<nat>, e: nat, p: Entry) {
    && e < Slots(lbas)
    && (forall k :: 0 <= k < Slots(lbas) ==> SlotOf(d', lbas, k) == if k == e then p else SlotOf(d, lbas, k))
    && (forall lba :: !InFat(g, lba) && lba !in lbas ==> Rd(d', lba) == Rd(d, lba))
  }

  method FileCreate(vol: Volume, file: FileHandle, ghost rc: Chain, ghost lbas: seq<nat>)
    returns (ok: bool, ghost e: nat, ghost p: Entry)
    requires vol.Valid() && |file.name| == NAME_BYTES && Listing(vol.g, vol.T(), rc, lbas)
    modifies vol`bufferedFatIndex, vol`disk, vol.fatBuffer, vol.sectorBuffer
    modifies file`cluster, file`startCluster, file`sector, file`clusterChange, file`entrySector, file`entryIndex
    ensures vol.Valid() && (old(Mirrored(vol.g, vol.disk)) ==> Mirrored(vol.g, vol.disk))
    ensures if ok then Created(vol.g, old(vol.disk), vol.disk, lbas, file, e, p) else vol.disk == old(vol.disk)
    ensures ok <==> LowestFree(old(vol.T()), 2) < vol.g.Entries()
                    && !NoneBelow(old(vol.disk), lbas, Empty, Slots(lbas))
    ensures ok ==> e < Slots(lbas) && SlotOf(old(vol.disk), lbas, e)[0] == 0x00
                   && forall k :: 0 <= k < e ==> SlotOf(old(vol.disk), lbas, k)[0] != 0x00
  {
    var lba, index;
    ok, lba, index, e := FindEmpty(vol, rc, lbas);
    if ok {
      ok, p := TakeEmpty(vol, file, lba, index, lbas, e);
    } else {
      p := seq(ENTRY_BYTES, _ => 0);
    }
  }

  /** A failed allocation would fail for every later empty slot as well. */
  method TakeEmpty(vol: Volume, file: FileHandle, lba: nat, index: nat, ghost lbas: seq<nat>, ghost e: nat)
    returns (ok: bool, p: Entry)
    requires vol.Valid() && |file.name| == NAME_BYTES && Separate(vol.g, lbas)
    requires Located(vol.disk, vol.sectorBuffer[..], lbas, Empty, e, lba, index)
    modifies vol`bufferedFatIndex, vol`disk, vol.fatBuffer, vol.sectorBuffer
    modifies file`cluster, file`startCluster, file`sector, file`clusterChange, file`entrySector, file`entryIndex
    ensures vol.Valid() && (old(Mirrored(vol.g, vol.disk)) ==> Mirrored(vol.g, vol.disk))
    ensures if ok then Created(vol.g, old(vol.disk), vol.disk, lbas, file, e, p) else vol.disk == old(vol.disk)
    ensures ok <==> LowestFree(old(vol.T()), 2) < vol.g.Entries()
  {
    var cluster;
    cluster, p := CreateAt(vol, file.name, file.attributes, file.size, lba, index, lbas, e);
    ok := cluster != 0;
    if ok { file.Place(cluster, 1, lba, index); }
  }

  method FindEmpty(vol: Volume, ghost rc: Chain, ghost lbas: seq<nat>)
    returns (found: bool, lba: nat, index: nat, ghost e: nat)
    requires vol.Valid() && Listing(vol.g, vol.T(), rc, lbas)
    modifies vol`bufferedFatIndex, vol.fatBuffer, vol.sectorBuffer
    ensures vol.Valid() && Separate(vol.g, lbas) && (found <==> !NoneBelow(vol.disk, lbas, Empty, Slots(lbas)))
    ensures found ==> Located(vol.disk, vol.sectorBuffer[..], lbas, Empty, e, lba, index)
                      && e < Slots(lbas) && SlotOf(vol.disk, lbas, e)[0] == 0x00
                      && forall k :: 0 <= k < e ==> SlotOf(vol.disk, lbas, k)[0] != 0x00
  {
    ListingIsSeparate(vol.g, vol.T(), rc, lbas);
    found, lba, index, e := FindSlot(vol, Empty, rc, lbas);
    if found { FirstEmpty(vol.disk, vol.sectorBuffer[..], lbas, e, lba, index); }
  }

  lemma FirstEmpty(d: Disk, buffer: seq<Byte>, lbas: seq<nat>, e: nat, lba: nat, index: nat)
    requires Located(d, buffer, lbas, Empty, e, lba, index)
    ensures e < Slots(lbas) && SlotOf(d, lbas, e)[0] == 0x00
    ensures forall k :: 0 <= k < e ==> SlotOf(d, lbas, k)[0] != 0x00
  {
    forall k | 0 <= k < e
      ensures SlotOf(d, lbas, k)[0] != 0x00
    {
      assert !Empty.Accepts(SlotOf(d, lbas, k));
    }
  }

  /** The branch of FileCreate that is taken at an empty slot. */
  method CreateAt(vol: Volume, name: seq<Byte>, attributes: Byte, size: nat, lba: nat, index: nat,
                  ghost lbas: seq<nat>, ghost e: nat) returns (cluster: nat, p: Entry)
    requires vol.Valid() && |name| == NAME_BYTES && Separate(vol.g, lbas)
    requires Located(vol.disk, vol.sectorBuffer[..], lbas, Empty, e, lba, index)
    modifies vol`bufferedFatIndex, vol`disk, vol.fatBuffer, vol.sectorBuffer
    ensures vol.Valid() && (old(Mirrored(vol.g, vol.disk)) ==> Mirrored(vol.g, vol.disk))
    ensures var n := LowestFree(old(vol.T()), 2);
            if n < vol.g.Entries() then
              && cluster == n && vol.T() == Allocate(vol.g.shape, old(vol.T()), n)
              && Stored(vol.g, old(vol.disk), vol.disk, lbas, e, p)
            else cluster == 0 && vol.disk == old(vol.disk)
    ensures p == NewEntry(vol.g, name, attributes, cluster, size)
  {
    cluster := vol.ClusterAllocate();
    p := NewEntry(vol.g, name, attributes, cluster, size);
    if cluster != 0 {
      FillSlot(vol, lba, index, p, old(vol.disk), lbas, e);
    }
  }

  /** FileCreate succeeded: the lowest free cluster was allocated, slot e was empty and now
      describes the file, and nothing else changed outside the FAT. */
  ghost predicate Created(g: Geometry, d: Disk, d': Disk, lbas: seq<nat>, file: FileHandle, e: nat, p: Entry)
    requires g.Valid()
    reads file
  {
    var t := TableOf(g, d);
    var n := LowestFree(t, 2);
    && e < Slots(lbas) && SlotOf(d, lbas, e)[0] == SLOT_EMPTY && |file.name| == NAME_BYTES
    && n < g.Entries() && TableOf(g, d') == Allocate(g.shape, t, n)
    && Stored(g, d, d', lbas, e, p)
    && p == NewEntry(g, file.name, file.attributes, n, file.size)
    && file.startCluster == file.cluster == n && file.sector == 0 && file.clusterChange == 1
    && file.entrySector == lbas[e / PER_SECTOR] && file.entryIndex == e % PER_SECTOR
  }

  /** Writing back the directory sector of slot e, patched, is storing that slot. */
  lemma SectorWriteStores(g: Geometry, d: Disk, mid: Disk, lbas: seq<nat>, e: nat, p: Entry)
    requires g.Valid() && Separate(g, lbas) && e < Slots(lbas) && OnlyFatChanged(g, d, mid)
    ensures var lba := lbas[e / PER_SECTOR];
            Stored(g, d, mid[lba := WithSlot(Rd(d, lba), e % PER_SECTOR, p)], lbas, e, p)
  {
    var lba := lbas[e / PER_SECTOR];
    var s := WithSlot(Rd(d, lba), e % PER_SECTOR, p);
    var d' := mid[lba := s];
    forall k {:trigger SlotOf(d', lbas, k)} | 0 <= k < Slots(lbas)
      ensures SlotOf(d', lbas, k) == if k == e then p else SlotOf(d, lbas, k)
    {
      WithSlotReads(Rd(d, lba), e % PER_SECTOR, p, k % PER_SECTOR);
      if k / PER_SECTOR == e / PER_SECTOR {
        assert Rd(d', lbas[k / PER_SECTOR]) == s;
      } else {
        assert lbas[k / PER_SECTOR] != lba;
        assert Rd(d', lbas[k / PER_SECTOR]) == Rd(d, lbas[k / PER_SECTOR]);
      }
    }
  }

  /** The last part of FileCreate: store the new entry in the slot that was found in d. */
  method FillSlot(vol: Volume, lba: nat, index: nat, p: Entry, ghost d: Disk, ghost lbas: seq<nat>, ghost e: nat)
    requires vol.Valid() && Separate(vol.g, lbas) && OnlyFatChanged(vol.g, d, vol.disk)
    requires Located(d, vol.sectorBuffer[..], lbas, Empty, e, lba, index)
    modifies vol`disk, vol.sectorBuffer
    ensures vol.Valid() && vol.T() == old(vol.T())
    ensures Stored(vol.g, d, vol.disk, lbas, e, p)
    ensures old(Mirrored(vol.g, vol.disk)) ==> Mirrored(vol.g, vol.disk)
  {
    assert vol.sectorBuffer[..] == Rd(vol.disk, lba);
    StoreSlot(vol, lba, index, p);
    SectorWriteStores(vol.g, d, old(vol.disk), lbas, e, p);
  }

  /** Patch one slot of the buffered directory sector and write the sector back. */
  method StoreSlot(vol: Volume, lba: nat, index: nat, p: Entry)
    requires vol.Valid() && index < PER_SECTOR && !InFat(vol.g, lba)
    modifies vol`disk, vol.sectorBuffer
    ensures vol.Valid() && vol.T() == old(vol.T())
    ensures vol.disk == old(vol.disk)[lba := WithSlot(old(vol.sectorBuffer[..]), index, p)]
    ensures old(Mirrored(vol.g, vol.disk)) ==> Mirrored(vol.g, vol.disk)
  {
    var s := WithSlot(vol.sectorBuffer[..], index, p);
    forall k | 0 <= k < SECTOR_BYTES {
      vol.sectorBuffer[k] := s[k];
    }
    assert vol.sectorBuffer[..] == s;
    vol.disk := vol.disk[lba := vol.sectorBuffer[..]];
    OutsideFat(vol.g, old(vol.disk), vol.disk);
    if vol.bufferedFatIndex < vol.g.fatSize { PrimarySlot(vol.g, vol.bufferedFatIndex); }
  }

  method UpdateEntry(vol: Volume, file: FileHandle, ghost rc: Chain, ghost lbas: seq<nat>, ghost e: nat)
    requires vol.Valid() && |file.name| == NAME_BYTES && Listing(vol.g, vol.T(), rc, lbas)
    requires e < Slots(lbas) && file.entrySector == lbas[e / PER_SECTOR] && file.entryIndex == e % PER_SECTOR
    modifies vol`disk, vol.sectorBuffer
    ensures vol.Valid() && vol.T() == old(vol.T())
    ensures Stored(vol.g, old(vol.disk), vol.disk, lbas, e,
                   Updated(SlotOf(old(vol.disk), lbas, e), file.name, file.attributes, file.size))
    ensures old(Mirrored(vol.g, vol.disk)) ==> Mirrored(vol.g, vol.disk)
  {
    ListingIsSeparate(vol.g, vol.T(), rc, lbas);
    vol.LoadSector(file.entrySector);
    var p := Updated(EntryIn(vol.sectorBuffer[..], file.entryIndex), file.name, file.attributes, file.size);
    StoreSlot(vol, file.entrySector, file.entryIndex, p);
    SectorWriteStores(vol.g, old(vol.disk), old(vol.disk), lbas, e, p);
  }

  // ---------- create and open agree ----------

  /** A name that strncmp compares in full and that FileOpen does not take for a free slot. */
  predicate Openable(name: seq<Byte>) {
    |name| == NAME_BYTES && 0 !in name && name[0] != SLOT_DELETED
  }

  /** After FileCreate the new slot is the one and only slot that FileOpen accepts for the name,
      and it gives back cluster and size. */
  lemma CreateOpenRoundTrip(g: Geometry, d: Disk, d': Disk, lbas: seq<nat>, e: nat,
                            name: seq<Byte>, attributes: Byte, cluster: nat, size: nat)
    requires g.shape.Valid() && cluster < g.shape.clusterLimit && size < WORD
    requires Openable(name) && !NotAFile(attributes)
    requires Stored(g, d, d', lbas, e, NewEntry(g, name, attributes, cluster, size))
    requires NoneBelow(d, lbas, Named(name), Slots(lbas))
    ensures forall k :: 0 <= k < Slots(lbas) ==> (Matches(SlotOf(d', lbas, k), name) <==> k == e)
    ensures StartCluster(g, SlotOf(d', lbas, e)) == cluster && FileSize(SlotOf(d', lbas, e)) == size
  {
    var p := NewEntry(g, name, attributes, cluster, size);
    NewEntryReads(g, name, attributes, cluster, size);
    assert name[..NAME_BYTES] == name;
    StrNEqualMeans(p, name, NAME_BYTES);
    assert p[0] == p[..NAME_BYTES][0] && name[0] in name;
    forall k | 0 <= k < Slots(lbas)
      ensures Matches(SlotOf(d', lbas, k), name) <==> k == e
    {
      if k != e { assert !Named(name).Accepts(SlotOf(d, lbas, k)); }
    }
  }

  /** Exactly those slots are accepted that carry the name asked for and are neither deleted, nor a
      volume label, nor a directory. */
  lemma MatchMeansName(p: Entry, name: seq<Byte>)
    requires Openable(name)
    ensures Matches(p, name) <==>
              p[..11] == name && p[0] !in {0x00, 0xE5} && p[11] / 0x08 % 2 == 0 && p[11] / 0x10 % 2 == 0
  {
    assert name[..NAME_BYTES] == name;
    StrNEqualMeans(p, name, NAME_BYTES);
  }

  /** Storing a directory slot changes no sector of a file outside the directory's own chain. */
  lemma StoredKeepsFiles(g: Geometry, t: Table, rc: Chain, lbas: seq<nat>, d: Disk, d': Disk, e: nat, p: Entry,
                         c: Chain, m: nat)
    requires Listing(g, t, rc, lbas) && Stored(g, d, d', lbas, e, p)
    requires IsChain(g.shape, t, c) && m / g.clusterSize < |c| && (g.shape.fat32 ==> Disjoint(rc, c))
    ensures FileSector(g, d', c, m) == FileSector(g, d, c, m)
  {
    var lba := FileLba(g, c, m);
    LbaInData(g, c[m / g.clusterSize], m);
    if g.shape.fat32 { assert rc[0] in rc; }
    forall k | 0 <= k < |lbas|
      ensures lbas[k] != lba
    {
      if g.shape.fat32 {
        assert ListedAt(g, rc, lbas, k);
        if lbas[k] == lba {
          SameLbaSameSector(g, t, rc, k, c, m);
        }
      }
    }
  }

  // ---------- start writing a file ----------

  /** Nothing in front of the FAT changed: boot sectors and FSInfo. */
  ghost predicate BootKept(g: Geometry, d: Disk, d': Disk) {
    forall x :: 0 <= x < g.fatStart ==> Rd(d', x) == Rd(d, x)
  }

  lemma StoredKeepsBoot(g: Geometry, t: Table, rc: Chain, lbas: seq<nat>, d: Disk, d': Disk, e: nat, p: Entry)
    requires Listing(g, t, rc, lbas) && Stored(g, d, d', lbas, e, p)
    ensures BootKept(g, d, d')
  {
    forall k | 0 <= k < |lbas|
      ensures g.fatStart <= lbas[k]
    {
      if g.shape.fat32 {
        assert ListedAt(g, rc, lbas, k);
        LbaInData(g, rc[k / g.clusterSize], k);
      }
    }
  }

  /** c is the chain of the file called `name`, if there is one. */
  ghost predicate ChainOfName(g: Geometry, d: Disk, lbas: seq<nat>, name: seq<Byte>, c: Chain)
    requires g.Valid() && |name| == NAME_BYTES
  {
    forall k :: 0 <= k < Slots(lbas) && Matches(SlotOf(d, lbas, k), name) ==>
      IsChain(g.shape, TableOf(g, d), c) && c[0] == StartCluster(g, SlotOf(d, lbas, k))
  }

  /** FileOpen finds a file called `name`. */
  ghost predicate Exists(d: Disk, lbas: seq<nat>, name: seq<Byte>)
    requires |name| == NAME_BYTES
  {
    !NoneBelow(d, lbas, Named(name), Slots(lbas))
  }

  /** The file called `name` is the one in slot e. */
  ghost predicate Names(d: Disk, lbas: seq<nat>, name: seq<Byte>, e: nat)
    requires |name| == NAME_BYTES
  {
    e < Slots(lbas) && Matches(SlotOf(d, lbas, e), name) && NoneBelow(d, lbas, Named(name), e)
  }

  /** FileNew: reuse the file of that name, or create it.  Slot e is the only one that changes. */
  method FileNew(vol: Volume, file: FileHandle, name: seq<Byte>, size: nat, ghost rc: Chain, ghost lbas: seq<nat>,
                 ghost c: Chain) returns (ok: bool, ghost e: nat, ghost c': Chain)
    requires vol.Valid() && Openable(name) && size < WORD && Listing(vol.g, vol.T(), rc, lbas)
    requires ChainOfName(vol.g, vol.disk, lbas, name, c)
    modifies vol`bufferedFatIndex, vol`disk, vol.fatBuffer, vol.sectorBuffer, file
    ensures vol.Valid() && (old(Mirrored(vol.g, vol.disk)) ==> Mirrored(vol.g, vol.disk))
    ensures Exists(old(vol.disk), lbas, name) ==> ok
    ensures HasFree(vol.g.shape, old(vol.T())) && !NoneBelow(old(vol.disk), lbas, Empty, Slots(lbas)) ==> ok
    ensures ok && (Exists(old(vol.disk), lbas, name) || HasFree(vol.g.shape, old(vol.T()))) ==>
              && Reused(vol.g.shape, old(vol.T()), vol.T(), Exists(old(vol.disk), lbas, name), c, c',
                        file.clusterChange)
              && ReadyToWrite(vol, file, lbas, name, e, c') && file.size == size
              && Stored(vol.g, old(vol.disk), vol.disk, lbas, e, SlotOf(vol.disk, lbas, e))
  {
    ok, e := FileOpen(vol, file, name, rc, lbas);
    if ok {
      c' := c;
      UseExisting(vol, file, name, size, rc, lbas, e, c);
    } else {
      file.Describe(name, 0, size);
      ok, e, c' := CreateNew(vol, file, rc, lbas);
    }
  }

  /** The handle is at the start of chain c, and slot e of the directory says so. */
  ghost predicate ReadyToWrite(vol: Volume, file: FileHandle, lbas: seq<nat>, name: seq<Byte>, e: nat, c: Chain)
    requires vol.g.Valid() && |name| == NAME_BYTES
    reads vol`disk, file
  {
    && vol.Owns(c) && file.At(vol.g, c) && file.sector == 0
    && Names(vol.disk, lbas, name, e) && FileSize(SlotOf(vol.disk, lbas, e)) == file.size
    && StartCluster(vol.g, SlotOf(vol.disk, lbas, e)) == c[0]
  }

  method UseExisting(vol: Volume, file: FileHandle, name: seq<Byte>, size: nat, ghost rc: Chain, ghost lbas: seq<nat>,
                     ghost e: nat, ghost c: Chain)
    requires vol.Valid() && Openable(name) && size < WORD && Listing(vol.g, vol.T(), rc, lbas)
    requires Names(vol.disk, lbas, name, e) && Opened(vol.g, vol.disk, lbas, file, e)
    requires vol.Owns(c) && c[0] == StartCluster(vol.g, SlotOf(vol.disk, lbas, e))
    modifies vol`disk, vol.sectorBuffer, file`name, file`attributes, file`size
    ensures vol.Valid() && vol.T() == old(vol.T()) && (old(Mirrored(vol.g, vol.disk)) ==> Mirrored(vol.g, vol.disk))
    ensures ReadyToWrite(vol, file, lbas, name, e, c) && file.size == size && file.clusterChange == 0
    ensures Stored(vol.g, old(vol.disk), vol.disk, lbas, e, SlotOf(vol.disk, lbas, e))
  {
    MatchMeansName(SlotOf(vol.disk, lbas, e), name);
    if file.size != size {
      Resize(vol, file, name, size, rc, lbas, e);
    }
    StandsReady(vol, file, lbas, name, e, c);
  }

  lemma StandsReady(vol: Volume, file: FileHandle, lbas: seq<nat>, name: seq<Byte>, e: nat, c: Chain)
    requires vol.g.Valid() && |name| == NAME_BYTES && vol.Owns(c) && Names(vol.disk, lbas, name, e)
    requires StartCluster(vol.g, SlotOf(vol.disk, lbas, e)) == c[0] && FileSize(SlotOf(vol.disk, lbas, e)) == file.size
    requires file.sector == 0 && file.cluster == file.startCluster == c[0]
    ensures ReadyToWrite(vol, file, lbas, name, e, c)
  {
    AtStart(vol.g, file.sector);
  }

  /** The size adjustment of FileNew. */
  method Resize(vol: Volume, file: FileHandle, name: seq<Byte>, size: nat, ghost rc: Chain, ghost lbas: seq<nat>,
                ghost e: nat)
    requires vol.Valid() && Openable(name) && size < WORD && Listing(vol.g, vol.T(), rc, lbas)
    requires Names(vol.disk, lbas, name, e) && Opened(vol.g, vol.disk, lbas, file, e) && file.name == name
    modifies vol`disk, vol.sectorBuffer, file`name, file`attributes, file`size
    ensures vol.Valid() && vol.T() == old(vol.T()) && (old(Mirrored(vol.g, vol.disk)) ==> Mirrored(vol.g, vol.disk))
    ensures file.size == size && Names(vol.disk, lbas, name, e) && FileSize(SlotOf(vol.disk, lbas, e)) == size
    ensures StartCluster(vol.g, SlotOf(vol.disk, lbas, e)) == old(StartCluster(vol.g, SlotOf(vol.disk, lbas, e)))
    ensures Stored(vol.g, old(vol.disk), vol.disk, lbas, e, SlotOf(vol.disk, lbas, e))
  {
    file.Describe(file.name, file.attributes, size);
    UpdateEntry(vol, file, rc, lbas, e);
    UpdatedKeepsName(vol.g, old(vol.disk), vol.disk, lbas, name, e, size);
  }

  lemma UpdatedKeepsName(g: Geometry, d: Disk, d': Disk, lbas: seq<nat>, name: seq<Byte>, e: nat, size: nat)
    requires Openable(name) && Names(d, lbas, name, e)
    requires Stored(g, d, d', lbas, e, Updated(SlotOf(d, lbas, e), name, SlotOf(d, lbas, e)[11], size))
    ensures Names(d', lbas, name, e) && StartCluster(g, SlotOf(d', lbas, e)) == StartCluster(g, SlotOf(d, lbas, e))
    ensures size < WORD ==> FileSize(SlotOf(d', lbas, e)) == size
  {
    var q := SlotOf(d', lbas, e);
    assert name[..NAME_BYTES] == name;
    StrNEqualMeans(q, name, NAME_BYTES);
    assert q[0] == q[..NAME_BYTES][0] && name[0] in name;
    forall k | 0 <= k < e
      ensures !Named(name).Accepts(SlotOf(d', lbas, k))
    {
      assert SlotOf(d', lbas, k) == SlotOf(d, lbas, k);
    }
  }

  method CreateNew(vol: Volume, file: FileHandle, ghost rc: Chain, ghost lbas: seq<nat>)
    returns (ok: bool, ghost e: nat, ghost c: Chain)
    requires vol.Valid() && Openable(file.name) && file.size < WORD && Listing(vol.g, vol.T(), rc, lbas)
    requires file.attributes == 0 && NoneBelow(vol.disk, lbas, Named(file.name), Slots(lbas))
    modifies vol`bufferedFatIndex, vol`disk, vol.fatBuffer, vol.sectorBuffer
    modifies file`cluster, file`startCluster, file`sector, file`clusterChange, file`entrySector, file`entryIndex
    ensures vol.Valid() && (old(Mirrored(vol.g, vol.disk)) ==> Mirrored(vol.g, vol.disk))
    ensures HasFree(vol.g.shape, old(vol.T())) && !NoneBelow(old(vol.disk), lbas, Empty, Slots(lbas)) ==> ok
    ensures ok && HasFree(vol.g.shape, old(vol.T())) ==>
              && Reused(vol.g.shape, old(vol.T()), vol.T(), false, [], c, file.clusterChange)
              && ReadyToWrite(vol, file, lbas, file.name, e, c)
              && Stored(vol.g, old(vol.disk), vol.disk, lbas, e, SlotOf(vol.disk, lbas, e))
  {
    ghost var p;
    ok, e, p := FileCreate(vol, file, rc, lbas);
    c := [file.cluster];
    if ok && file.cluster < vol.g.shape.clusterLimit {
      CreatedStands(vol, file, old(vol.disk), lbas, e, p);
    }
  }

  lemma CreatedStands(vol: Volume, file: FileHandle, d: Disk, lbas: seq<nat>, e: nat, p: Entry)
    requires vol.g.Valid() && Created(vol.g, d, vol.disk, lbas, file, e, p) && Openable(file.name) && file.size < WORD
    requires file.cluster < vol.g.shape.clusterLimit && file.attributes == 0
    requires NoneBelow(d, lbas, Named(file.name), Slots(lbas))
    ensures ReadyToWrite(vol, file, lbas, file.name, e, [file.cluster])
  {
    AllocateMakesChain(vol.g.shape, TableOf(vol.g, d), file.cluster);
    CreateOpenRoundTrip(vol.g, d, vol.disk, lbas, e, file.name, 0, file.cluster, file.size);
    StandsReady(vol, file, lbas, file.name, e, [file.cluster]);
  }

  lemma AtStart(g: Geometry, n: nat)
    requires g.Valid()
    ensures n == 0 ==> n / g.clusterSize == 0
  {
  }

  /** An existing file kept its chain, a new one got the lowest free cluster. */
  ghost predicate Reused(g: Shape, t: Table, t': Table, existed: bool, c: Chain, c': Chain, change: int)
    requires 2 <= |t|
  {
    if existed then t' == t && c' == c && change == 0
    else LowestFree(t, 2) < |t| && t' == Allocate(g, t, LowestFree(t, 2)) && c' == [LowestFree(t, 2)] && change == 1
  }
}
