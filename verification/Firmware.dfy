/** Upgrade files: what mkupg writes, and what CheckFirmware accepts. */
module Firmware {
  import opened ByteBits
  import opened Words
  import opened Chains
  import opened Disks
  import opened FatVolume
  import CrcTable
  import C = Crc32

  const HEADER_BYTES: nat := 512     // sizeof(UPGRADE)
  const VERSION: nat := 8
  const ROM_SIZE: nat := 32
  const ROM_CRC: nat := 36
  const HEADER_CRC: nat := 508
  const ID: seq<Byte> := [0x4D, 0x4E, 0x4D, 0x47, 0x55, 0x50, 0x47, 0]    // "MNMGUPG"
  const ATH: seq<Byte> := [0x41, 0x54, 0x48]

  // ---------- words of the header ----------

  function Bits(s: seq<Byte>): (r: seq<bv8>)
    ensures |r| == |s| && forall i :: 0 <= i < |s| ==> r[i] == Bv(s[i])
  {
    seq(|s|, i requires 0 <= i < |s| => Bv(s[i]))
  }

  function Join(a: bv8, b: bv8, c: bv8, d: bv8): bv32 {
    (a as bv32) | ((b as bv32) << 8) | ((c as bv32) << 16) | ((d as bv32) << 24)
  }

  function ByteOf(x: bv32): Byte { ((x & 0xFF) as bv8) as int }

  function Word(s: seq<Byte>, at: nat): bv32
    requires at + 4 <= |s|
  {
    Join(Bv(s[at]), Bv(s[at + 1]), Bv(s[at + 2]), Bv(s[at + 3]))
  }

  function PutWord(s: seq<Byte>, at: nat, x: bv32): (r: seq<Byte>)
    requires at + 4 <= |s|
    ensures |r| == |s|
  {
    s[at := ByteOf(x)][at + 1 := ByteOf(x >> 8)][at + 2 := ByteOf(x >> 16)][at + 3 := ByteOf(x >> 24)]
  }

  lemma ByteOfReads(x: bv32)
    ensures Bv(ByteOf(x)) == (x & 0xFF) as bv8
  {
  }

  lemma JoinSplit(x: bv32)
    ensures Join((x & 0xFF) as bv8, ((x >> 8) & 0xFF) as bv8, ((x >> 16) & 0xFF) as bv8, ((x >> 24) & 0xFF) as bv8) == x
  {
  }

  lemma JoinReads(a: bv8, b: bv8, c: bv8, d: bv8)
    ensures var x := Join(a, b, c, d);
            && (x & 0xFF) as bv8 == a && ((x >> 8) & 0xFF) as bv8 == b
            && ((x >> 16) & 0xFF) as bv8 == c && ((x >> 24) & 0xFF) as bv8 == d
  {
  }

  lemma WordChanges(s: seq<Byte>, at: nat, i: nat, b: Byte)
    requires at + 4 <= |s| && at <= i < at + 4 && s[i] != b
    ensures Word(s[i := b], at) != Word(s, at)
  {
    var t := s[i := b];
    BvInjective(s[i], b);
    JoinInjective(Bv(s[at]), Bv(s[at + 1]), Bv(s[at + 2]), Bv(s[at + 3]),
                  Bv(t[at]), Bv(t[at + 1]), Bv(t[at + 2]), Bv(t[at + 3]));
  }

  lemma JoinInjective(a: bv8, b: bv8, c: bv8, d: bv8, a': bv8, b': bv8, c': bv8, d': bv8)
    ensures Join(a, b, c, d) == Join(a', b', c', d') ==> a == a' && b == b' && c == c' && d == d'
  {
    JoinReads(a, b, c, d);
    JoinReads(a', b', c', d');
  }

  lemma PutWordReads(s: seq<Byte>, at: nat, x: bv32)
    requires at + 4 <= |s|
    ensures Word(PutWord(s, at, x), at) == x
  {
    ByteOfReads(x);
    ByteOfReads(x >> 8);
    ByteOfReads(x >> 16);
    ByteOfReads(x >> 24);
    JoinSplit(x);
  }

  // ---------- an acceptable upgrade file ----------

  function Register(s: seq<Byte>): bv32 { C.Crc(CrcTable.Entry, C.START, Bits(s)) }

  function Sum(s: seq<Byte>): bv32 { Inverted(Register(s)) }

  function Inverted(x: bv32): bv32 { !x }

  method SumOf(s: seq<Byte>) returns (sum: bv32)
    ensures sum == Sum(s)
  {
    var crc := C.CalculateCRC32(CrcTable.Entry, C.START, Bits(s));
    sum := Inverted(crc);
  }

  predicate HeaderGood(h: seq<Byte>)
    requires |h| >= HEADER_BYTES
  {
    Word(h, HEADER_CRC) == Sum(h[..HEADER_CRC]) && h[..8] == ID
  }

  predicate Accepts(image: seq<Byte>) {
    && |image| >= HEADER_BYTES && HeaderGood(image)
    && Le32(image, ROM_SIZE) == |image| - HEADER_BYTES
    && Word(image, ROM_CRC) == Sum(image[HEADER_BYTES..])
  }

  /** The bytes at `at` are x, least significant first. */
  predicate Stored(s: seq<Byte>, at: nat, x: bv32)
    requires at + 4 <= |s|
  {
    && Bv(s[at]) == (x & 0xFF) as bv8 && Bv(s[at + 1]) == ((x >> 8) & 0xFF) as bv8
    && Bv(s[at + 2]) == ((x >> 16) & 0xFF) as bv8 && Bv(s[at + 3]) == ((x >> 24) & 0xFF) as bv8
  }

  lemma WordIsStored(s: seq<Byte>, at: nat, x: bv32)
    requires at + 4 <= |s|
    ensures Word(s, at) == x <==> Stored(s, at, x)
  {
    JoinReads(Bv(s[at]), Bv(s[at + 1]), Bv(s[at + 2]), Bv(s[at + 3]));
    JoinSplit(x);
  }

  /** An acceptable file begins with "MNMGUPG", says how much follows its 512-byte header, and carries
      the complemented CRC-32 of what follows, and at its end that of the header in front of it. */
  lemma AcceptsMeans(image: seq<Byte>)
    ensures Accepts(image) <==>
              && |image| >= 512
              && (forall i :: 0 <= i < 8 ==> image[i] == "MNMGUPG\0"[i] as int)
              && image[32] as int + 0x100 * image[33] as int + 0x1_0000 * image[34] as int
                 + 0x100_0000 * image[35] as int == |image| - 512
              && Stored(image, 36, Inverted(C.BitwiseCrc(0xFFFF_FFFF, Bits(image[512..]))))
              && Stored(image, 508, Inverted(C.BitwiseCrc(0xFFFF_FFFF, Bits(image[..508]))))
  {
    if |image| >= 512 {
      SumIsBitwise(image[512..]);
      SumIsBitwise(image[..508]);
      WordIsStored(image, 36, Sum(image[512..]));
      WordIsStored(image, 508, Sum(image[..508]));
      IdCharacters(image);
    }
  }

  lemma SumIsBitwise(s: seq<Byte>)
    ensures Sum(s) == Inverted(C.BitwiseCrc(0xFFFF_FFFF, Bits(s)))
  {
    C.TableIsPolynomial();
    C.CrcIsBitwise(CrcTable.Entry, C.START, Bits(s));
  }

  lemma IdCharacters(image: seq<Byte>)
    requires |image| >= 8
    ensures image[..8] == ID <==> forall i :: 0 <= i < 8 ==> image[i] == "MNMGUPG\0"[i] as int
  {
    assert image[..8] == ID <==> forall i :: 0 <= i < 8 ==> image[i] == ID[i];
  }

  /** No single damaged byte of an upgrade file goes unnoticed, wherever it is. */
  lemma DamageIsRejected(image: seq<Byte>, i: nat, b: Byte)
    requires Accepts(image) && i < |image| && image[i] != b
    ensures !Accepts(image[i := b])
  {
    var damaged := image[i := b];
    if i < HEADER_CRC {
      assert damaged[..HEADER_CRC] == image[..HEADER_CRC][i := b];
      SumChanges(image[..HEADER_CRC], i, b);
      assert Word(damaged, HEADER_CRC) == Word(image, HEADER_CRC);
    } else if i < HEADER_BYTES {
      assert damaged[..HEADER_CRC] == image[..HEADER_CRC];
      WordChanges(image, HEADER_CRC, i, b);
    } else {
      assert damaged[HEADER_BYTES..] == image[HEADER_BYTES..][i - HEADER_BYTES := b];
      assert image[HEADER_BYTES..][i - HEADER_BYTES] == image[i];
      SumChanges(image[HEADER_BYTES..], i - HEADER_BYTES, b);
      assert Word(damaged, ROM_CRC) == Word(image, ROM_CRC);
    }
  }

  lemma SumChanges(s: seq<Byte>, i: nat, b: Byte)
    requires i < |s| && s[i] != b
    ensures Sum(s[i := b]) != Sum(s)
  {
    BvInjective(s[i], b);
    C.TableIsPolynomial();
    assert Bits(s[i := b]) == Bits(s)[i := Bv(b)];
    C.OneByteMatters(CrcTable.Entry, C.START, Bits(s), i, Bv(b));
    NotInjective(Register(s), Register(s[i := b]));
  }

  lemma NotInjective(x: bv32, y: bv32)
    ensures Inverted(x) == Inverted(y) ==> x == y
  {
  }

  // ---------- mkupg ----------

  /** The header mkupg fills in for a ROM, up to its own checksum. */
  method FillHeader(bin: seq<Byte>, date: seq<Byte>) returns (h: seq<Byte>)
    requires |bin| < WORD && |date| == 6
    ensures |h| == HEADER_BYTES && h[..8] == ID && Le32(h, ROM_SIZE) == |bin| && Word(h, ROM_CRC) == Sum(bin)
    ensures h[VERSION..VERSION + 9] == ATH + date && h[VERSION + 9] == 0
  {
    h := seq(HEADER_BYTES, _ => 0);
    h := ID + (ATH + date) + h[VERSION + 9..];
    assert h[..8] == ID && h[VERSION + 9] == 0;
    assert h[VERSION..VERSION + 9] == ATH + date;
    var crc := SumOf(bin);
    RomFields(h, |bin|, crc);
    h := PutWord(PutLe32(h, ROM_SIZE, |bin|), ROM_CRC, crc);
  }

  /** The ROM fields read back, and the fields in front of them are not touched. */
  lemma RomFields(h: seq<Byte>, size: nat, crc: bv32)
    requires |h| == HEADER_BYTES && size < WORD
    ensures var r := PutWord(PutLe32(h, ROM_SIZE, size), ROM_CRC, crc);
            && |r| == HEADER_BYTES && Le32(r, ROM_SIZE) == size && Word(r, ROM_CRC) == crc
            && r[..ROM_SIZE] == h[..ROM_SIZE]
  {
    var t := PutLe32(h, ROM_SIZE, size);
    PutLe32ReadsBack(h, ROM_SIZE, size);
    PutWordReads(t, ROM_CRC, crc);
    assert Le32(PutWord(t, ROM_CRC, crc), ROM_SIZE) == Le32(t, ROM_SIZE);
  }

  /** mkupg: header with its checksum, then the ROM. */
  method MakeUpgrade(bin: seq<Byte>, date: seq<Byte>) returns (image: seq<Byte>)
    requires |bin| < WORD && |date| == 6
    ensures Accepts(image) && image[HEADER_BYTES..] == bin && image[VERSION..VERSION + 9] == ATH + date
  {
    var h := FillHeader(bin, date);
    var crc := SumOf(h[..HEADER_CRC]);
    var sealed := PutWord(h, HEADER_CRC, crc);
    image := sealed + bin;
    SealedIsAccepted(h, bin, crc);
  }

  lemma SealedIsAccepted(h: seq<Byte>, bin: seq<Byte>, crc: bv32)
    requires |h| == HEADER_BYTES && h[..8] == ID && Le32(h, ROM_SIZE) == |bin| && Word(h, ROM_CRC) == Sum(bin)
    requires crc == Sum(h[..HEADER_CRC])
    ensures Accepts(PutWord(h, HEADER_CRC, crc) + bin)
  {
    var sealed := PutWord(h, HEADER_CRC, crc);
    var image := sealed + bin;
    PutWordReads(h, HEADER_CRC, crc);
    assert image[..HEADER_CRC] == h[..HEADER_CRC] && image[HEADER_BYTES..] == bin;
    assert Word(image, HEADER_CRC) == Word(sealed, HEADER_CRC) && Word(image, ROM_CRC) == Word(h, ROM_CRC);
    assert Le32(image, ROM_SIZE) == Le32(h, ROM_SIZE) && image[..8] == h[..8];
  }

  // ---------- CheckFirmware ----------

  /** CheckFirmware on a file FileOpen found: true exactly for acceptable images, with the handle
      back at the start. */
  method CheckFirmware(vol: Volume, file: FileHandle, ghost c: Chain, ghost image: seq<Byte>) returns (ok: bool)
    requires vol.Valid() && vol.Owns(c) && file.At(vol.g, c) && file.sector == 0
    requires file.size == |image| < WORD && HasBytes(vol.g, vol.disk, c, image, |image|)
    modifies vol`bufferedFatIndex, vol.fatBuffer, vol.sectorBuffer, file`sector, file`cluster
    ensures ok == Accepts(image) && vol.Valid()
    ensures ok ==> file.At(vol.g, c) && file.sector == 0
  {
    ok := false;
    if file.size >= HEADER_BYTES {
      var good, size, sum := ReadHeader(vol, file, c, image);
      if good && size == file.size - HEADER_BYTES {
        var crc := RomCrc(vol, file, c, image);
        ok := crc == sum;
        if ok {
          ghost var links;
          ok, links := vol.FileSeek(file, 0, false, c);
        }
      }
    }
  }

  /** The checks on the header sector. */
  method ReadHeader(vol: Volume, file: FileHandle, ghost c: Chain, ghost image: seq<Byte>)
    returns (good: bool, size: nat, sum: bv32)
    requires vol.Valid() && vol.Owns(c) && file.At(vol.g, c) && file.sector == 0
    requires |image| >= HEADER_BYTES && HasBytes(vol.g, vol.disk, c, image, |image|)
    modifies vol.sectorBuffer
    ensures vol.Valid() && size == Le32(image, ROM_SIZE) && sum == Word(image, ROM_CRC)
    ensures good == HeaderGood(image)
  {
    vol.FileRead(file, vol.sectorBuffer, 0);
    SectorBytes(vol.g, vol.disk, c, image, 0, HEADER_BYTES);
    var h := vol.sectorBuffer[..];
    HeaderOfImage(h, image);
    good := HeaderCheck(h);
    size, sum := Le32(h, ROM_SIZE), Word(h, ROM_CRC);
  }

  method HeaderCheck(h: seq<Byte>) returns (good: bool)
    requires |h| == HEADER_BYTES
    ensures good == HeaderGood(h)
  {
    var crc := SumOf(h[..HEADER_CRC]);
    var stored := Word(h, HEADER_CRC);
    IdWithNul(h);
    good := stored == crc && h[..7] == ID[..7] && h[7] == 0;
  }

  lemma IdWithNul(h: seq<Byte>)
    requires |h| >= 8
    ensures h[..8] == ID <==> h[..7] == ID[..7] && h[7] == 0
  {
    assert h[..8] == h[..7] + [h[7]] && ID == ID[..7] + [0];
  }

  lemma HeaderOfImage(h: seq<Byte>, image: seq<Byte>)
    requires |image| >= HEADER_BYTES && h == image[..HEADER_BYTES]
    ensures HeaderGood(h) == HeaderGood(image)
    ensures Le32(h, ROM_SIZE) == Le32(image, ROM_SIZE) && Word(h, ROM_CRC) == Word(image, ROM_CRC)
  {
    assert h[..HEADER_CRC] == image[..HEADER_CRC] && h[..8] == image[..8];
    assert Word(h, HEADER_CRC) == Word(image, HEADER_CRC);
  }

  /** The loop over the ROM. */
  method RomCrc(vol: Volume, file: FileHandle, ghost c: Chain, ghost image: seq<Byte>) returns (sum: bv32)
    requires vol.Valid() && vol.Owns(c) && file.At(vol.g, c) && file.sector == 0
    requires HEADER_BYTES <= |image| == file.size && HasBytes(vol.g, vol.disk, c, image, |image|)
    modifies vol`bufferedFatIndex, vol.fatBuffer, vol.sectorBuffer, file`sector, file`cluster
    ensures vol.Valid() && file.At(vol.g, c) && sum == Sum(image[HEADER_BYTES..])
  {
    var crc := C.START;
    var left: nat := file.size - HEADER_BYTES;
    ghost var rom, done: nat := image[HEADER_BYTES..], 0;
    RegisterEnds(rom);
    while left > 0
      invariant vol.Valid() && file.At(vol.g, c) && done + left == |rom|
      invariant left > 0 ==> done == 512 * file.sector
      invariant crc == RegisterAt(rom, done)
    {
      var count := if left > 512 then 512 else left;
      ghost var next := done + count;
      crc := AddPart(vol, file, crc, count, c, image, rom, done, next);
      done := next;
      left := left - count;
    }
    assert done == |rom|;
    sum := Inverted(crc);
  }

  /** The CRC register after n bytes. */
  ghost function RegisterAt(rom: seq<Byte>, n: nat): bv32
    requires n <= |rom|
  {
    Register(rom[..n])
  }

  lemma RegisterEnds(rom: seq<Byte>)
    ensures RegisterAt(rom, 0) == C.START && RegisterAt(rom, |rom|) == Register(rom)
  {
    assert Bits(rom[..0]) == [] && rom[..|rom|] == rom;
  }

  method AddPart(vol: Volume, file: FileHandle, crc: bv32, count: nat, ghost c: Chain, ghost image: seq<Byte>,
                 ghost rom: seq<Byte>, ghost done: nat, ghost next: nat) returns (crc': bv32)
    requires vol.Valid() && vol.Owns(c) && file.At(vol.g, c) && HasBytes(vol.g, vol.disk, c, image, |image|)
    requires HEADER_BYTES <= |image| && rom == image[HEADER_BYTES..]
    requires done == 512 * file.sector && 0 < count <= 512 && next == done + count <= |rom|
    requires crc == RegisterAt(rom, done)
    modifies vol`bufferedFatIndex, vol.fatBuffer, vol.sectorBuffer, file`sector, file`cluster
    ensures vol.Valid() && file.At(vol.g, c) && file.sector == old(file.sector) + 1
    ensures crc' == RegisterAt(rom, next)
  {
    NextPart(vol, file, c, image, rom, count);
    var part := vol.sectorBuffer[..count];
    assert part == rom[done..next];
    crc' := C.CalculateCRC32(CrcTable.Entry, crc, Bits(part));
    CrcGrows(rom, done, next, part);
  }

  method NextPart(vol: Volume, file: FileHandle, ghost c: Chain, ghost image: seq<Byte>, ghost rom: seq<Byte>,
                  ghost count: nat)
    requires vol.Valid() && vol.Owns(c) && file.At(vol.g, c) && HasBytes(vol.g, vol.disk, c, image, |image|)
    requires HEADER_BYTES <= |image| && rom == image[HEADER_BYTES..]
    requires 0 < count <= 512 && 512 * file.sector + count <= |rom|
    modifies vol`bufferedFatIndex, vol.fatBuffer, vol.sectorBuffer, file`sector, file`cluster
    ensures vol.Valid() && file.At(vol.g, c) && file.sector == old(file.sector) + 1
    ensures vol.sectorBuffer[..count] == rom[512 * old(file.sector)..512 * old(file.sector) + count]
  {
    ghost var n := file.sector + 1;
    SectorBytes(vol.g, vol.disk, c, image, n, count);
    InCapacity(vol.g, c, n);
    assert rom[512 * (n - 1)..512 * (n - 1) + count] == image[512 * n..512 * n + count];
    vol.FileNextSector(file, c);
    vol.FileRead(file, vol.sectorBuffer, 0);
    assert vol.sectorBuffer[..count] == FileSector(vol.g, vol.disk, c, n)[..count];
  }

  lemma CrcGrows(rom: seq<Byte>, done: nat, next: nat, part: seq<Byte>)
    requires done <= next <= |rom| && part == rom[done..next]
    ensures C.Crc(CrcTable.Entry, RegisterAt(rom, done), Bits(part)) == RegisterAt(rom, next)
  {
    C.CrcConcat(CrcTable.Entry, C.START, Bits(rom[..done]), Bits(part));
    BitsConcat(rom[..done], part);
    assert rom[..done] + part == rom[..next];
  }

  lemma BitsConcat(a: seq<Byte>, b: seq<Byte>)
    ensures Bits(a + b) == Bits(a) + Bits(b)
  {
  }
}
