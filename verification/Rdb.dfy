/** The synthesized RigidDiskBlock and PartitionBlock of a hardfile, as big-endian longs. */
module Rdb {
  import opened Words

  const LONGS: nat := 128    // longs in a sector
  const SUMMED: nat := 0x40  // rdb_Summedlongs, pb_Summedlongs
  const RDSK: nat := 0x5244_534B
  const PART: nat := 0x5041_5254
  const FLAGS: nat := 0x12   // disk ID valid, no LUNs after this one
  const NONE: nat := 0xFFFF_FFFF

  type Long = x: int | 0 <= x < WORD

  /** The geometry the blocks describe. */
  datatype Shape = Shape(cylinders: nat, heads: nat, sectors: nat)
  {
    predicate Valid() {
      cylinders <= 0xFFFF && 1 <= heads <= 16 && 1 <= sectors <= 255
    }
  }

  // ---------- checksums ----------

  function Sum(p: seq<Long>): int {
    if |p| == 0 then 0 else Sum(p[..|p| - 1]) + p[|p| - 1] as int
  }

  lemma {:induction false} SumUpdate(p: seq<Long>, i: nat, v: Long)
    requires i < |p|
    ensures Sum(p[i := v]) == Sum(p) - p[i] + v
  {
    var last := |p| - 1;
    if i == last {
      assert p[i := v][..last] == p[..last];
    } else {
      assert p[i := v][..last] == p[..last][i := v];
      SumUpdate(p[..last], i, v);
    }
  }

  lemma SumPrefix(p: seq<Long>, n: nat)
    requires n < |p|
    ensures Sum(p[..n + 1]) == Sum(p[..n]) + p[n]
  {
    assert p[..n + 1][..n] == p[..n];
  }

  /** RDBChecksum: afterwards the summed longs add up to zero modulo 2^32. */
  method RdbChecksum(p: array<Long>)
    requires p.Length == LONGS && 3 <= p[1] <= LONGS
    modifies p
    ensures p[1] == old(p[1]) && Sum(p[..p[1]]) % WORD == 0
    ensures forall i :: 0 <= i < LONGS && i != 2 ==> p[i] == old(p[i])
  {
    var count, result := p[1], 0;
    p[2] := 0;
    ghost var s := p[..];
    for i := 0 to count
      invariant p[..] == s && result == Sum(s[..i]) % WORD
    {
      SumPrefix(s, i);
      ModAdd(Sum(s[..i]), p[i]);
      result := (result + p[i]) % WORD;
    }
    p[2] := (-result) % WORD;
    assert p[..count] == s[..count][2 := (-result) % WORD];
    SumUpdate(s[..count], 2, (-result) % WORD);
    ModCancels(Sum(s[..count]));
  }

  lemma ModAdd(a: int, x: int)
    ensures (a % WORD + x) % WORD == (a + x) % WORD
  {
  }

  lemma ModCancels(a: int)
    ensures (a + (-(a % WORD)) % WORD) % WORD == 0
  {
  }

  // ---------- the blocks ----------

  /** Four characters in memory order, as the big-endian long they are on the Amiga. */
  function Chars(s: string): (v: Long)
    requires |s| == 4 && forall i :: 0 <= i < 4 ==> s[i] as int < 0x80
  {
    s[0] as int * 0x100_0000 + s[1] as int * 0x1_0000 + s[2] as int * 0x100 + s[3] as int
  }

  /** Longs of the RDSK block before the checksum is filled in. */
  function RdskLong(g: Shape, i: nat): Long
    requires g.Valid()
  {
    match i
    case 0 => RDSK
    case 1 => SUMMED
    case 3 => 0x07
    case 4 => 0x200
    case 5 => FLAGS
    case 7 => 1
    case 16 => g.cylinders
    case 17 => g.sectors
    case 18 => g.heads
    case 19 => 1
    case 26 => 3
    case 33 => 1
    case 34 => 1
    case 35 => (g.cylinders - 1) % WORD
    case 36 => g.heads * g.sectors
    case 38 => 1
    case 40 => Chars("Do n")
    case 41 => Chars("ot \0")
    case 42 => Chars("repa")
    case 43 => Chars("rtit")
    case 44 => Chars("ion!")
    case _ =>
      if i in {6, 8, 9} || 10 <= i <= 15 then NONE
      else if i in {20, 24, 25} then g.cylinders
      else 0
  }

  /** Longs of the PART block; the drive name is a BCPL string. */
  function PartLong(g: Shape, unit: nat, i: nat): Long
    requires g.Valid()
  {
    match i
    case 0 => PART
    case 1 => SUMMED
    case 3 => 0x07
    case 4 => NONE
    case 5 => 1
    case 9 => if unit != 0 then Chars("\U{0003}DH1") else Chars("\U{0003}DH0")
    case 32 => 0x10
    case 33 => 0x80
    case 35 => g.heads
    case 36 => 1
    case 37 => g.sectors
    case 38 => 2
    case 41 => 1
    case 42 => (g.cylinders - 1) % WORD
    case 43 => 30
    case 45 => 0xFF_FFFF
    case 46 => 0x7FFF_FFFE
    case 48 => 0x444F_5301
    case _ => 0
  }

  /** The block FakeRDB leaves in the sector buffer, as big-endian longs. */
  method FakeRdb(g: Shape, unit: nat, block: nat) returns (longs: seq<Long>)
    requires g.Valid()
    ensures |longs| == LONGS && longs == FakeBlock(g, unit, block)
    ensures block <= 1 ==> Sum(longs[..SUMMED]) % WORD == 0
  {
    var p := new Long[LONGS](i => 0);
    if block == 0 {
      forall i | 0 <= i < LONGS { p[i] := RdskLong(g, i); }
    } else if block == 1 {
      forall i | 0 <= i < LONGS { p[i] := PartLong(g, unit, i); }
    } else {
      longs := p[..];
      assert longs == seq(LONGS, _ => 0);
      return;
    }
    ghost var before := p[..];
    assert block == 0 ==> before == seq(LONGS, i requires 0 <= i => RdskLong(g, i));
    assert block == 1 ==> before == seq(LONGS, i requires 0 <= i => PartLong(g, unit, i));
    RdbChecksum(p);
    longs := p[..];
    ChecksumUnique(before, longs);
  }

  /** The same block in closed form: everything but the checksum is given by the field table. */
  function FakeBlock(g: Shape, unit: nat, block: nat): (longs: seq<Long>)
    requires g.Valid()
    ensures |longs| == LONGS
  {
    if block == 0 then Summed(seq(LONGS, i requires 0 <= i => RdskLong(g, i)))
    else if block == 1 then Summed(seq(LONGS, i requires 0 <= i => PartLong(g, unit, i)))
    else seq(LONGS, _ => 0)
  }

  /** The unique checksum that makes the summed longs add up to zero. */
  function Summed(p: seq<Long>): seq<Long>
    requires |p| == LONGS
  {
    p[2 := (-Sum(p[..SUMMED][2 := 0])) % WORD]
  }

  lemma ChecksumUnique(before: seq<Long>, after: seq<Long>)
    requires |before| == |after| == LONGS && Sum(after[..SUMMED]) % WORD == 0
    requires forall i :: 0 <= i < LONGS && i != 2 ==> after[i] == before[i]
    ensures after == Summed(before)
  {
    var zeroed: seq<Long> := before[..SUMMED][2 := 0];
    assert after[..SUMMED] == zeroed[2 := after[2]];
    SumUpdate(zeroed, 2, after[2]);
    OnlyComplement(Sum(zeroed), after[2]);
  }

  lemma OnlyComplement(sum: int, v: Long)
    requires (sum + v) % WORD == 0
    ensures v == (-sum) % WORD
  {
    assert (-sum) % WORD == (v - (sum + v)) % WORD;
  }

  // ---------- the flag patch on a real block 0 ----------

  /** The checksum is corrected by the difference of the flags. */
  function Patched(p: seq<Long>): (r: seq<Long>)
    requires |p| == LONGS
    ensures |r| == LONGS
  {
    p[2 := (p[2] + p[5] - FLAGS) % WORD][5 := FLAGS]
  }

  /** Patching keeps the sum of any checksummed prefix that covers the two fields. */
  lemma PatchKeepsSum(p: seq<Long>, n: nat)
    requires |p| == LONGS && 6 <= n <= LONGS
    ensures Sum(Patched(p)[..n]) % WORD == Sum(p[..n]) % WORD
    ensures Patched(p)[5] == 0x12 && forall i :: 0 <= i < LONGS && i != 2 && i != 5 ==> Patched(p)[i] == p[i]
  {
    var q: seq<Long> := p[..n];
    var chk: Long := (p[2] + p[5] - FLAGS) % WORD;
    var r: seq<Long> := q[2 := chk];
    assert Patched(p)[..n] == r[5 := FLAGS];
    SumUpdate(q, 2, chk);
    SumUpdate(r, 5, FLAGS);
  }

  // ---------- longs and bytes ----------

  function BeLong(s: seq<Byte>, i: nat): Long
    requires 4 * i + 4 <= |s|
  {
    s[4 * i] as int * 0x100_0000 + s[4 * i + 1] as int * 0x1_0000 + s[4 * i + 2] as int * 0x100 + s[4 * i + 3] as int
  }

  function Longs(s: Sector): (p: seq<Long>)
    ensures |p| == LONGS
  {
    seq(LONGS, i requires 0 <= i < LONGS => BeLong(s, i))
  }

  /** Memory order of a big-endian long. */
  function Bytes(p: seq<Long>): (s: Sector)
    requires |p| == LONGS
  {
    seq(SECTOR_BYTES, b requires 0 <= b < SECTOR_BYTES => DigitOf(p[b / 4], b % 4))
  }

  function DigitOf(v: Long, k: nat): Byte {
    match k
    case 0 => v / 0x100_0000
    case 1 => v / 0x1_0000 % 0x100
    case 2 => v / 0x100 % 0x100
    case _ => v % 0x100
  }

  lemma BytesReadBack(p: seq<Long>)
    requires |p| == LONGS
    ensures Longs(Bytes(p)) == p
  {
    forall i | 0 <= i < LONGS
      ensures Longs(Bytes(p))[i] == p[i]
    {
      LongReadsBack(p, i);
    }
  }

  lemma LongReadsBack(p: seq<Long>, i: nat)
    requires |p| == LONGS && i < LONGS
    ensures BeLong(Bytes(p), i) == p[i]
  {
    var s := Bytes(p);
    ByteIsDigit(p, i, 0);
    ByteIsDigit(p, i, 1);
    ByteIsDigit(p, i, 2);
    ByteIsDigit(p, i, 3);
    DigitsOfLong(p[i]);
  }

  lemma ByteIsDigit(p: seq<Long>, i: nat, k: nat)
    requires |p| == LONGS && i < LONGS && k < 4
    ensures Bytes(p)[4 * i + k] == DigitOf(p[i], k)
  {
    assert (4 * i + k) / 4 == i && (4 * i + k) % 4 == k;
  }

  lemma DigitsOfLong(v: Long)
    ensures DigitOf(v, 0) as int * 0x100_0000 + DigitOf(v, 1) as int * 0x1_0000
            + DigitOf(v, 2) as int * 0x100 + DigitOf(v, 3) as int == v
  {
    WordDigits(v);
  }

  // ---------- what the host finds in the blocks ----------

  /** The sector carries these big-endian longs. */
  predicate Carries(s: Sector, p: seq<Long>)
    requires |p| == LONGS
  {
    forall i :: 0 <= i < LONGS ==> BeLong(s, i) == p[i]
  }

  lemma BytesCarry(p: seq<Long>)
    requires |p| == LONGS
    ensures Carries(Bytes(p), p)
  {
    forall i | 0 <= i < LONGS
      ensures BeLong(Bytes(p), i) == p[i]
    {
      LongReadsBack(p, i);
    }
  }

  /** A patched block as the host receives it. */
  lemma PatchedCarries(p: seq<Long>, raw: Sector, shown: Sector, n: nat)
    requires |p| == LONGS && 6 <= n <= LONGS && Carries(raw, p) && Carries(shown, Patched(p))
    ensures BeLong(shown, 5) == 0x12
    ensures forall i :: 0 <= i < LONGS && i !in {2, 5} ==> BeLong(shown, i) == BeLong(raw, i)
    ensures Sum(Longs(shown)[..n]) % WORD == Sum(Longs(raw)[..n]) % WORD
  {
    assert Longs(shown) == Patched(p) && Longs(raw) == p;
    PatchKeepsSum(p, n);
  }

  predicate Says(s: Sector, at: nat, text: string) {
    at + |text| <= |s| && forall j :: 0 <= j < |text| ==> s[at + j] == text[j] as int
  }

  lemma LongSays(s: Sector, i: nat, text: string)
    requires i < LONGS && |text| == 4 && forall j :: 0 <= j < 4 ==> text[j] as int < 0x80
    requires BeLong(s, i) == Chars(text)
    ensures Says(s, 4 * i, text)
  {
    SameDigits(s[4 * i], s[4 * i + 1], s[4 * i + 2], s[4 * i + 3], text[0] as int, text[1] as int, text[2] as int,
               text[3] as int);
  }

  lemma SameDigits(a: Byte, b: Byte, c: Byte, d: Byte, a': Byte, b': Byte, c': Byte, d': Byte)
    requires a as int * 0x100_0000 + b as int * 0x1_0000 + c as int * 0x100 + d as int
          == a' as int * 0x100_0000 + b' as int * 0x1_0000 + c' as int * 0x100 + d' as int
    ensures a == a' && b == b' && c == c' && d == d'
  {
  }

  /** Block 0 names itself, points to block 1 as the only partition block, and warns the user. */
  lemma RdskNames(g: Shape, unit: nat, r: Sector)
    requires g.Valid() && Carries(r, FakeBlock(g, unit, 0))
    ensures Says(r, 0, "RDSK") && BeLong(r, 7) == 1 && BeLong(r, 4) == 512 && BeLong(r, 5) == 0x12
    ensures BeLong(r, 6) == BeLong(r, 8) == BeLong(r, 9) == 0xFFFF_FFFF
    ensures Says(r, 160, "Do n") && Says(r, 164, "ot \0")
    ensures Says(r, 168, "repa") && Says(r, 172, "rtit") && Says(r, 176, "ion!")
  {
    LongSays(r, 0, "RDSK");
    LongSays(r, 40, "Do n");
    LongSays(r, 41, "ot \0");
    LongSays(r, 42, "repa");
    LongSays(r, 43, "rtit");
    LongSays(r, 44, "ion!");
  }

  /** Block 1 names itself, the drive (a BCPL string) and the file system, and is the last one. */
  lemma PartNames(g: Shape, unit: nat, q: Sector)
    requires g.Valid() && Carries(q, FakeBlock(g, unit, 1))
    ensures Says(q, 0, "PART") && BeLong(q, 4) == 0xFFFF_FFFF && BeLong(q, 5) == 1
    ensures Says(q, 36, if unit == 0 then "\U{0003}DH0" else "\U{0003}DH1") && Says(q, 192, "DOS\U{0001}")
    ensures BeLong(q, 33) == 512 / 4 && BeLong(q, 36) == 1
  {
    LongSays(q, 0, "PART");
    LongSays(q, 9, if unit == 0 then "\U{0003}DH0" else "\U{0003}DH1");
    LongSays(q, 48, "DOS\U{0001}");
  }

  /** The partition as block 1 describes it to the host. */
  datatype Partition = Partition(low: nat, high: nat, surfaces: nat, blocksPerTrack: nat)
  {
    function Start(): nat { low * surfaces * blocksPerTrack }
    function Size(): int { (high + 1 - low) * surfaces * blocksPerTrack }
  }

  function PartitionIn(s: Sector): Partition {
    Partition(BeLong(s, 41), BeLong(s, 42), BeLong(s, 35), BeLong(s, 37))
  }

  /** The drive as block 0 describes it. */
  datatype Drive = Drive(cylinders: nat, sectors: nat, heads: nat, firstBlock: nat, lastBlock: nat, lowCylinder: nat,
                         highCylinder: nat, cylinderBlocks: nat)

  function DriveIn(s: Sector): Drive {
    Drive(BeLong(s, 16), BeLong(s, 17), BeLong(s, 18), BeLong(s, 32), BeLong(s, 33), BeLong(s, 34), BeLong(s, 35),
          BeLong(s, 36))
  }

  lemma DriveFields(g: Shape, unit: nat, r: Sector)
    requires g.Valid() && g.cylinders > 0 && Carries(r, FakeBlock(g, unit, 0))
    ensures DriveIn(r) == Drive(g.cylinders, g.sectors, g.heads, 0, 1, 1, g.cylinders - 1, g.heads * g.sectors)
  {
  }

  lemma PartitionFields(g: Shape, unit: nat, q: Sector)
    requires g.Valid() && g.cylinders > 0 && Carries(q, FakeBlock(g, unit, 1))
    ensures PartitionIn(q) == Partition(1, g.cylinders - 1, g.heads, g.sectors)
  {
  }

  /** The partition begins behind the first cylinder and takes up all others, in the geometry of the
      drive; block 0 says the same of the partitionable cylinders, and its own blocks lie before them. */
  lemma BlocksAgree(g: Shape, unit: nat, r: Sector, q: Sector)
    requires g.Valid() && g.cylinders > 0
    requires Carries(r, FakeBlock(g, unit, 0)) && Carries(q, FakeBlock(g, unit, 1))
    ensures var drive, part := DriveIn(r), PartitionIn(q);
            && part.Start() == g.heads * g.sectors
            && part.Start() + part.Size() == g.cylinders * g.heads * g.sectors
            && drive.cylinders == g.cylinders && drive.heads == part.surfaces && drive.sectors == part.blocksPerTrack
            && drive.cylinderBlocks == drive.heads * drive.sectors
            && drive.lowCylinder == part.low && drive.highCylinder == part.high
            && drive.firstBlock == 0 && drive.lastBlock == 1
  {
    DriveFields(g, unit, r);
    PartitionFields(g, unit, q);
    MulOne(g.heads, g.sectors);
    CylinderSum(g.cylinders, g.heads, g.sectors);
  }

  lemma MulOne(heads: nat, sectors: nat)
    ensures 1 * heads * sectors == heads * sectors
  {
  }

  lemma CylinderSum(cylinders: nat, heads: nat, sectors: nat)
    ensures heads * sectors + (cylinders - 1) * heads * sectors == cylinders * heads * sectors
  {
  }
}
