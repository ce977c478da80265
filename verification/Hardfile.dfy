/** The seek index of a hardfile, and why seeking through it is seeking along the chain. */
module Hardfile {
  import opened Words
  import opened Chains
  import opened Disks
  import opened FatVolume

  const INDEX_ENTRIES: nat := 1024

  // ---------- the index step ----------

  function Pow2(n: nat): (r: nat)
    ensures r > 0
  {
    if n == 0 then 1 else 2 * Pow2(n - 1)
  }

  /** index_size after the doubling loop, which stops when the step 2^index_size reaches i. */
  function StepBits(bits: nat, i: nat): (r: nat)
    ensures r >= bits
    decreases if Pow2(bits) < i then i - Pow2(bits) else 0
  {
    if Pow2(bits) < i then StepBits(bits + 1, i) else bits
  }

  function IndexBits(size: nat): nat { StepBits(16, size / 1024) }

  function IndexStep(size: nat): (j: nat)
    ensures j > 0
  {
    Pow2(IndexBits(size))
  }

  lemma Pow2Values()
    ensures Pow2(9) == 512 && Pow2(16) == 0x1_0000 && Pow2(17) == 0x2_0000 && Pow2(18) == 0x4_0000
    ensures Pow2(19) == 0x8_0000 && Pow2(20) == 0x10_0000 && Pow2(21) == 0x20_0000 && Pow2(22) == 0x40_0000
  {
    assert Pow2(4) == 16;
    assert Pow2(8) == 256;
    assert Pow2(12) == 4096;
    assert Pow2(16) == 0x1_0000;
    assert Pow2(20) == 0x10_0000;
  }

  /** Sizes for which the index fits its table and the filling loop ends: below 1023 * 4 MB, and
      not a little over a power of two from 64 MB on. */
  predicate IndexFits(size: nat) {
    && size <= 1023 * 0x40_0000
    && (size % 1024 == 0 ||
        size / 1024 !in {0x1_0000, 0x2_0000, 0x4_0000, 0x8_0000, 0x10_0000, 0x20_0000})
  }

  /** For a 32-bit size the step is one of seven powers of two and covers size / 1024. */
  lemma StepCases(size: nat)
    requires size < WORD
    ensures 16 <= IndexBits(size) <= 22
    ensures IndexStep(size) >= size / 1024
    ensures IndexStep(size) in {0x1_0000, 0x2_0000, 0x4_0000, 0x8_0000, 0x10_0000, 0x20_0000, 0x40_0000}
    ensures IndexStep(size) > 0x1_0000 ==> IndexStep(size) < 2 * (size / 1024)
  {
    Pow2Values();
    var i := size / 1024;
    assert StepBits(22, i) == 22;
    assert StepBits(21, i) == if Pow2(21) < i then 22 else 21;
    assert StepBits(20, i) == if Pow2(20) < i then StepBits(21, i) else 20;
    assert StepBits(19, i) == if Pow2(19) < i then StepBits(20, i) else 19;
    assert StepBits(18, i) == if Pow2(18) < i then StepBits(19, i) else 18;
    assert StepBits(17, i) == if Pow2(17) < i then StepBits(18, i) else 17;
  }

  /** The byte offset i of the filling loop after n rounds, in 32-bit arithmetic. */
  function Visited(size: nat, n: nat): nat { n * IndexStep(size) % WORD }

  /** The filling loop stops after at most 1024 stores exactly for the sizes that fit. */
  lemma FillingStops(size: nat)
    requires size < WORD
    ensures IndexFits(size) <==> exists n :: 0 <= n <= INDEX_ENTRIES && Visited(size, n) >= size
  {
    StepCases(size);
    var j := IndexStep(size);
    if IndexFits(size) {
      var n := (size + j - 1) / j;
      assert size <= n * j < size + j;
      assert n <= INDEX_ENTRIES;
      assert n * j < WORD;
      NoWrap(n * j);
      assert Visited(size, n) >= size;
    } else {
      forall n | 0 <= n <= INDEX_ENTRIES
        ensures Visited(size, n) < size
      {
        if j == 0x40_0000 {
          assert n * j % WORD <= 1023 * 0x40_0000;
        } else {
          NoWrap(n * j);
        }
      }
    }
  }

  // ---------- hardfile, index and seek ----------

  /** The part of hdfTYPE that seeking uses. */
  class HardFile {
    const file: FileHandle
    const index: array<nat>
    var indexSize: nat

    constructor (f: FileHandle)
      ensures file == f && fresh(index) && index.Length == INDEX_ENTRIES
    {
      file := f;
      index := new nat[INDEX_ENTRIES];
      indexSize := 0;
    }

    /** Every entry names the cluster that holds the first sector of its stretch of the file. */
    ghost predicate Indexed(g: Geometry, c: Chain)
      reads this, file`size, index
    {
      && g.Valid() && index.Length == INDEX_ENTRIES && indexSize == IndexBits(file.size) && file.size < WORD
      && IndexedUpTo(g, c, Rounds(file.size))
    }

    ghost predicate IndexedUpTo(g: Geometry, c: Chain, n: nat)
      reads this, index
      requires g.Valid() && index.Length == INDEX_ENTRIES
    {
      n <= INDEX_ENTRIES && forall k :: 0 <= k < n ==> EntryOk(g, c, StrideOf(indexSize), index[k], k)
    }

    method BuildHardfileIndex(vol: Volume, ghost c: Chain)
      requires vol.Valid() && vol.Owns(c) && file.At(vol.g, c) && index.Length == INDEX_ENTRIES
      requires index as object != vol.fatBuffer
      requires file.size <= 512 * Capacity(vol.g, c) && file.size < WORD && IndexFits(file.size)
      modifies this`indexSize, index, file`sector, file`cluster, vol`bufferedFatIndex, vol.fatBuffer
      ensures vol.Valid() && file.At(vol.g, c) && Indexed(vol.g, c)
    {
      var j := IndexStart(vol.g);
      FillIndex(vol, j, c);
    }

    /** HardFileSeek: land where walking the chain from its start would land, following few links. */
    method HardFileSeek(vol: Volume, lba: nat, ghost c: Chain) returns (ok: bool, ghost links: nat)
      requires vol.Valid() && vol.Owns(c) && file.At(vol.g, c) && Indexed(vol.g, c)
      requires 512 * lba < file.size <= 512 * Capacity(vol.g, c) && IndexFits(file.size)
      modifies file`sector, file`cluster, vol`bufferedFatIndex, vol.fatBuffer
      ensures vol.Valid()
      ensures ok && file.At(vol.g, c) && file.sector == lba
      ensures links <= LinkBound(vol.g, indexSize)
    {
      StepCases(file.size);
      if file.sector / vol.g.clusterSize != lba / vol.g.clusterSize {
        if file.sector > lba || Farther(vol.g, file.sector) != Farther(vol.g, lba) {
          JumpLinks(vol.g, indexSize, lba);
          Jump(vol.g, lba, c);
        } else {
          NearLinks(vol.g, file.sector, lba);
        }
      }
      SeekTargetFits(vol.g, vol.T(), c, file.size, lba);
      assert LinksNeeded(vol.g, file.sector, lba) <= LinkBound(vol.g, indexSize);
      ok, links := vol.FileSeek(file, lba, false, c);
    }

    /** Stand at the start of the index stretch that holds sector lba. */
    method Jump(g: Geometry, lba: nat, ghost c: Chain)
      requires Indexed(g, c) && 512 * lba < file.size <= 512 * Capacity(g, c) && IndexFits(file.size)
      requires |c| > 0 && file.startCluster == c[0]
      modifies file`sector, file`cluster
      ensures file.At(g, c) && file.sector == lba - lba % StrideOf(indexSize)
    {
      JumpFacts(g, c, file.size, lba);
      var stride := StrideOf(indexSize);
      var k, start: nat := lba / stride, lba - lba % stride;
      assert EntryOk(g, c, stride, index[k], k);
      file.cluster := index[k];
      file.sector := start;
    }

    /** The doubling loop. */
    method IndexStart(ghost g: Geometry) returns (j: nat)
      requires file.size < WORD
      modifies this`indexSize
      ensures indexSize == IndexBits(file.size) && j == IndexStep(file.size)
    {
      Pow2Values();
      indexSize := 16;
      j := 0x1_0000;
      var i := file.size / 1024;
      while j < i
        invariant indexSize >= 16 && j == Pow2(indexSize)
        invariant StepBits(indexSize, i) == IndexBits(file.size)
        decreases if j < i then i - j else 0
      {
        j := 2 * j;
        indexSize := indexSize + 1;
      }
    }

    /** One round of the filling loop. */
    method IndexOne(vol: Volume, i: nat, k: nat, ghost c: Chain)
      requires vol.Valid() && vol.Owns(c) && file.At(vol.g, c) && index.Length == INDEX_ENTRIES
      requires index as object != vol.fatBuffer
      requires file.size <= 512 * Capacity(vol.g, c) && file.size < WORD
      requires indexSize == IndexBits(file.size) && i == k * IndexStep(file.size) < file.size && k < INDEX_ENTRIES
      requires IndexedUpTo(vol.g, c, k)
      modifies index, file`sector, file`cluster, vol`bufferedFatIndex, vol.fatBuffer
      ensures vol.Valid() && file.At(vol.g, c) && IndexedUpTo(vol.g, c, k + 1)
    {
      RoundSector(vol.g, c, file.size, k);
      ghost var ok, links := vol.FileSeek(file, i / 512, false, c);
      index[k] := file.cluster;
    }

    /** The filling loop. */
    method FillIndex(vol: Volume, j: nat, ghost c: Chain)
      requires vol.Valid() && vol.Owns(c) && file.At(vol.g, c) && index.Length == INDEX_ENTRIES
      requires index as object != vol.fatBuffer
      requires file.size <= 512 * Capacity(vol.g, c) && file.size < WORD && IndexFits(file.size)
      requires indexSize == IndexBits(file.size) && j == IndexStep(file.size)
      modifies index, file`sector, file`cluster, vol`bufferedFatIndex, vol.fatBuffer
      ensures vol.Valid() && file.At(vol.g, c) && Indexed(vol.g, c)
    {
      var i: nat, k: nat := 0, 0;
      StepCases(file.size);
      RoundsFit(file.size);
      while i < file.size
        invariant vol.Valid() && file.At(vol.g, c) && k <= Rounds(file.size) && i == k * j
        invariant IndexedUpTo(vol.g, c, k)
        decreases Rounds(file.size) - k
      {
        RoundFacts(file.size, k);
        IndexOne(vol, i, k, c);
        i, k := (i + j) % WORD, k + 1;
      }
      NextMultiple(file.size, j, Rounds(file.size), k);
    }
  }

  /** Sectors covered by one index entry of 2^bits bytes. */
  function StrideOf(bits: nat): (r: nat)
    ensures r > 0
  {
    if bits < 9 then 1 else Pow2(bits - 9)
  }

  /** Index entry k names the cluster of sector k * stride. */
  ghost predicate EntryOk(g: Geometry, c: Chain, stride: nat, cluster: nat, k: nat)
    requires g.Valid()
  {
    k * stride / g.clusterSize < |c| && cluster == c[k * stride / g.clusterSize]
  }

  /** Rounds of the filling loop. */
  function Rounds(size: nat): nat { (size + IndexStep(size) - 1) / IndexStep(size) }

  lemma RoundsFit(size: nat)
    requires size < WORD && IndexFits(size)
    ensures Rounds(size) <= INDEX_ENTRIES && Rounds(size) * IndexStep(size) < WORD
    ensures size <= Rounds(size) * IndexStep(size) < size + IndexStep(size)
  {
    StepCases(size);
    CeilFacts(size, IndexStep(size));
  }

  lemma CeilFacts(n: nat, d: nat)
    requires d > 0
    ensures var q := (n + d - 1) / d;
            n <= q * d < n + d
  {
    var q := (n + d - 1) / d;
    assert n + d - 1 == d * q + (n + d - 1) % d;
  }

  lemma StrideOfStep(bits: nat)
    requires bits >= 9
    ensures Pow2(bits) == 512 * StrideOf(bits)
  {
    Pow2Values();
    if bits > 9 { StrideOfStep(bits - 1); }
  }

  /** One round of the filling loop stays inside the table and 32 bits ... */
  lemma RoundFacts(size: nat, k: nat)
    requires size < WORD && IndexFits(size) && k * IndexStep(size) < size
    ensures k < Rounds(size) <= INDEX_ENTRIES
    ensures (k * IndexStep(size) + IndexStep(size)) % WORD == (k + 1) * IndexStep(size)
  {
    RoundsFit(size);
    NextMultiple(size, IndexStep(size), Rounds(size), k);
  }

  lemma NextMultiple(size: nat, j: nat, rounds: nat, k: nat)
    requires j > 0 && size <= rounds * j < size + j
    ensures k * j < size ==> k < rounds
    ensures k * j < size && rounds * j < WORD ==> (k * j + j) % WORD == (k + 1) * j
    ensures k <= rounds && size <= k * j ==> k == rounds
  {
    if k * j < size {
      if rounds <= k { MulMonotone(j, rounds, k); }
      MulMonotone(j, k + 1, rounds);
      assert (k + 1) * j == k * j + j;
      if rounds * j < WORD { NoWrap(k * j + j); }
    } else if k < rounds {
      MulMonotone(j, k + 1, rounds);
    }
  }

  /** ... and seeks to a sector of the file. */
  lemma RoundSector(g: Geometry, c: Chain, size: nat, k: nat)
    requires g.Valid() && size < WORD && size <= 512 * Capacity(g, c) && k * IndexStep(size) < size
    ensures k * IndexStep(size) / 512 == k * StrideOf(IndexBits(size))
    ensures k * StrideOf(IndexBits(size)) / g.clusterSize < |c|
  {
    StepCases(size);
    StrideOfStep(IndexBits(size));
    TimesStride(k, IndexStep(size), StrideOf(IndexBits(size)));
    InCapacity(g, c, k * StrideOf(IndexBits(size)));
  }

  lemma TimesStride(k: nat, j: nat, stride: nat)
    requires j == 512 * stride
    ensures k * j == 512 * (k * stride) && k * j / 512 == k * stride
  {
  }

  // ---------- how far a seek walks ----------

  /** The part of a sector number that must agree for two sectors to have their links in one FAT
      sector: sector & (cluster_mask << 7 or 8). */
  function Farther(g: Geometry, n: nat): nat
    requires g.Valid()
  {
    n / (g.clusterSize * g.PerSector())
  }

  /** The links a seek through the index follows at most: within one stretch of the index, or
      within one FAT sector. */
  function LinkBound(g: Geometry, bits: nat): nat
    requires g.Valid()
  {
    var a, b := StrideOf(bits) / g.clusterSize, g.PerSector();
    if a <= b then b - 1 else a - 1
  }

  /** The bound is one less than the clusters of a stretch, or the entries of a FAT sector, whichever
      is more; a stretch is 128 sectors at 64 MB and at most 8192. */
  lemma LinkBoundIs(g: Geometry, size: nat)
    requires g.Valid() && size < WORD
    ensures var bits := IndexBits(size);
            var clusters, entries := StrideOf(bits) / g.clusterSize, if g.shape.fat32 then 128 else 256;
            && LinkBound(g, bits) >= clusters - 1 && LinkBound(g, bits) >= entries - 1
            && (LinkBound(g, bits) == clusters - 1 || LinkBound(g, bits) == entries - 1)
            && 512 * StrideOf(bits) == IndexStep(size) && 128 <= StrideOf(bits) <= 8192
  {
    StepCases(size);
    StrideOfStep(IndexBits(size));
  }

  /** The index entry for sector lba exists, and stands for a whole number of clusters. */
  lemma JumpFacts(g: Geometry, c: Chain, size: nat, lba: nat)
    requires g.Valid() && size < WORD && 512 * lba < size <= 512 * Capacity(g, c) && IndexFits(size)
    ensures var stride := StrideOf(IndexBits(size));
            && 0 <= lba / stride < Rounds(size) <= INDEX_ENTRIES
            && 0 <= lba - lba % stride == lba / stride * stride
  {
    var stride := StrideOf(IndexBits(size));
    StepCases(size);
    StrideOfStep(IndexBits(size));
    RoundsFit(size);
    var k := lba / stride;
    Floor(lba, stride);
    TimesStride(k, IndexStep(size), stride);
    NextMultiple(size, IndexStep(size), Rounds(size), k);
  }

  lemma Floor(n: nat, d: nat)
    requires d > 0
    ensures 0 <= n / d * d <= n && n - n % d == n / d * d
  {
    assert n == d * (n / d) + n % d;
  }

  /** Sectors with their links in the same FAT sector are fewer than a FAT sector of links apart. */
  lemma NearLinks(g: Geometry, from: nat, to: nat)
    requires g.Valid() && from <= to && Farther(g, from) == Farther(g, to)
    ensures LinksNeeded(g, from, to) <= g.PerSector() - 1
  {
    NestedDivision(from, g.clusterSize, g.PerSector());
    NestedDivision(to, g.clusterSize, g.PerSector());
    DivMonotone(from, to, g.clusterSize);
  }

  lemma NestedDivision(n: nat, a: nat, b: nat)
    requires a > 0 && b > 0
    ensures a * b > 0 && n / (a * b) == n / a / b
  {
    var q, r := n / a / b, n / a % b;
    assert n == a * (b * q + r) + n % a;
    assert n == (a * b) * q + (a * r + n % a);
    MulMonotone(a, r + 1, b);
    DivModUnique(n, a * b, q, a * r + n % a);
  }

  /** From the start of its index stretch a sector is less than a stretch of clusters away. */
  lemma JumpLinks(g: Geometry, bits: nat, lba: nat)
    requires g.Valid() && 16 <= bits <= 22
    ensures lba - lba % StrideOf(bits) >= 0
    ensures LinksNeeded(g, lba - lba % StrideOf(bits), lba) <= StrideOf(bits) / g.clusterSize - 1
  {
    Pow2Values();
    StrideOfStep(bits);
    assert StrideOf(bits) in {128, 256, 512, 1024, 2048, 4096, 8192};
    PowersDivide(StrideOf(bits), g.clusterSize);
    StretchLinks(g.clusterSize, StrideOf(bits) / g.clusterSize, lba);
  }

  lemma PowersDivide(s: nat, d: nat)
    requires s in {128, 256, 512, 1024, 2048, 4096, 8192} && PowerOfTwo(d)
    ensures s / d > 0 && s == d * (s / d)
  {
    if d == 1 || d == 2 || d == 4 || d == 8 { } else if d == 16 || d == 32 { } else { assert d == 64 || d == 128; }
  }

  lemma StretchLinks(d: nat, a: nat, n: nat)
    requires d > 0 && a > 0
    ensures d * a > 0 && n % (d * a) <= n
    ensures n / d <= (n - n % (d * a)) / d + (a - 1)
    ensures (n - n % (d * a)) / d <= n / d
  {
    var stretch := d * a;
    var k, from := n / stretch, n - n % stretch;
    assert from == d * (a * k);
    DivModUnique(from, d, a * k, 0);
    DivMonotone(from, n, d);
    if n / d >= a * k + a {
      MulMonotone(d, a * k + a, n / d);
    }
  }

  lemma SeekTargetFits(g: Geometry, t: Table, c: Chain, size: nat, lba: nat)
    requires g.Valid() && g.shape.clusterLimit <= |t| && IsChain(g.shape, t, c)
    requires 512 * lba < size <= 512 * Capacity(g, c)
    ensures lba < WORD && lba / g.clusterSize < |c|
  {
    CapacityFits(g, t, c);
    InCapacity(g, c, lba);
  }
}
