/** SendFileEncrypted: a ROM file, without its header, combined with a repeating key. */
module Keystream {
  import opened ByteBits
  import opened Words
  import opened Chains
  import opened Disks
  import opened FatVolume
  import opened RaFiles

  function Mix(x: bv8, y: bv8): bv8 { x ^ y }

  function Xor(a: Byte, k: Byte): Byte { Mix(Bv(a), Bv(k)) as int }

  /** The payload as it must be sent: byte i combined with key byte i mod the key's length. */
  function Encrypted(s: seq<Byte>, key: seq<Byte>): (r: seq<Byte>)
    requires key != []
    ensures |r| == |s|
  {
    seq(|s|, i requires 0 <= i < |s| => Xor(s[i], key[i % |key|]))
  }

  /** The bytes in front of the payload: what the size has over a multiple of 256. */
  function HeaderSize(size: nat): (r: nat)
    ensures r <= size && r < 0x100 && (size - r) % 0x100 == 0
  {
    size % 0x100
  }

  /** Sectors sent. */
  function Blocks(size: nat): nat { (size + 511 - HeaderSize(size)) / 512 }

  lemma PayloadCovered(size: nat)
    requires size + 511 < WORD
    ensures size <= HeaderSize(size) + 512 * Blocks(size) < size + 512
    ensures ((size + (511 - HeaderSize(size))) % WORD) / 512 == Blocks(size) && HeaderSize(size) < 0x100
  {
    NoWrap(size + (511 - HeaderSize(size)));
  }

  lemma KeyStep(i: nat, n: nat)
    requires n > 0
    ensures (i + 1) % n == if i % n + 1 >= n then i % n + 1 - n else i % n + 1
  {
    if i % n + 1 >= n {
      DivModUnique(i + 1, n, i / n + 1, 0);
    } else {
      DivModUnique(i + 1, n, i / n, i % n + 1);
    }
  }

  /** The inner loop: combine one sector in place, from key position i mod keysize on. */
  method EncryptSector(buffer: array<Byte>, key: seq<Byte>, keyidx: nat, ghost i: nat) returns (next: nat)
    requires buffer.Length == SECTOR_BYTES && key != [] && keyidx == i % |key|
    modifies buffer
    ensures next == (i + SECTOR_BYTES) % |key|
    ensures forall j :: 0 <= j < SECTOR_BYTES ==> buffer[j] == Xor(old(buffer[j]), key[(i + j) % |key|])
  {
    next := keyidx;
    for j := 0 to SECTOR_BYTES
      invariant next == (i + j) % |key|
      invariant forall m :: 0 <= m < j ==> buffer[m] == Xor(old(buffer[m]), key[(i + m) % |key|])
      invariant forall m :: j <= m < SECTOR_BYTES ==> buffer[m] == old(buffer[m])
    {
      KeyStep(i + j, |key|);
      buffer[j] := Xor(buffer[j], key[next]);
      next := next + 1;
      if next >= |key| { next := next - |key|; }
    }
  }

  /** `sent` is what file `data` has from offset h on, as far as the file's sectors reach, combined with
      the key. */
  ghost predicate Covers(sent: seq<Byte>, data: seq<Byte>, h: nat, key: seq<Byte>)
    requires key != []
  {
    forall i :: 0 <= i < |sent| && h + i < |data| ==> sent[i] == Xor(data[h + i], key[i % |key|])
  }

  /** The result is what goes to the FPGA.  The file's sectors need only hold the file. */
  method SendFileEncrypted(ra: RaFile, vol: Volume, key: seq<Byte>, ghost c: Chain, ghost data: seq<Byte>)
    returns (sent: seq<Byte>)
    requires ra.Ready(vol, c, data) && ra.ptr == 0 && key != [] && ra.size + 511 < WORD && ra.size <= |data|
    modifies ra`ptr, ra.buffer, ra.file`sector, ra.file`cluster
    modifies vol`bufferedFatIndex, vol.fatBuffer, vol.sectorBuffer
    ensures ra.size <= HeaderSize(ra.size) + |sent| < ra.size + 512 && |sent| % 512 == 0
    ensures Covers(sent, data, HeaderSize(ra.size), key)
    ensures sent[..ra.size - HeaderSize(ra.size)] == Encrypted(data[HeaderSize(ra.size)..ra.size], key)
  {
    SkipHeader(ra, vol, HeaderSize(ra.size), c, data);
    var n := BlockCount(ra.size);
    sent := SendPayload(ra, vol, key, n, ra.size, c, data);
    PayloadSent(sent, data, ra.size, key);
  }

  method SkipHeader(ra: RaFile, vol: Volume, headersize: nat, ghost c: Chain, ghost data: seq<Byte>)
    requires ra.Ready(vol, c, data) && ra.ptr == 0 && headersize <= |data|
    modifies ra`ptr, ra.buffer, ra.file`sector, ra.file`cluster, vol`bufferedFatIndex, vol.fatBuffer
    ensures ra.Ready(vol, c, data) && ra.ptr == headersize
  {
    var header := ra.RARead(vol, headersize, c, data);
  }

  method BlockCount(size: nat) returns (n: nat)
    requires size + 511 < WORD
    ensures n == Blocks(size)
  {
    PayloadCovered(size);
    n := ((size + (511 - HeaderSize(size))) % WORD) / 512;
  }

  lemma PayloadSent(sent: seq<Byte>, data: seq<Byte>, size: nat, key: seq<Byte>)
    requires key != [] && Covers(sent, data, HeaderSize(size), key) && size <= |data|
    requires |sent| == 512 * Blocks(size) && size + 511 < WORD
    ensures size <= HeaderSize(size) + |sent| < size + 512 && |sent| % 512 == 0
    ensures sent[..size - HeaderSize(size)] == Encrypted(data[HeaderSize(size)..size], key)
  {
    PayloadCovered(size);
  }

  /** The sectors behind the header. */
  method SendPayload(ra: RaFile, vol: Volume, key: seq<Byte>, n: nat, ghost size: nat, ghost c: Chain,
                     ghost data: seq<Byte>) returns (sent: seq<Byte>)
    requires ra.Ready(vol, c, data) && key != [] && size <= |data|
    requires ra.ptr == HeaderSize(size) && n == Blocks(size)
    modifies ra`ptr, ra.buffer, ra.file`sector, ra.file`cluster
    modifies vol`bufferedFatIndex, vol.fatBuffer, vol.sectorBuffer
    ensures |sent| == 512 * n && Covers(sent, data, HeaderSize(size), key)
  {
    var k, keyidx := 0, 0;
    sent := [];
    NothingSent(|key|);
    while k < n
      invariant k <= n && (k < n ==> ra.Ready(vol, c, data)) && ra.ptr == HeaderSize(size) + 512 * k
      invariant |sent| == 512 * k && keyidx == |sent| % |key| && Covers(sent, data, HeaderSize(size), key)
    {
      sent, keyidx := SendNext(ra, vol, key, keyidx, sent, size, k, c, data);
      k := k + 1;
    }
  }

  /** The body of the loop. */
  method SendNext(ra: RaFile, vol: Volume, key: seq<Byte>, keyidx: nat, sent: seq<Byte>, ghost size: nat, ghost k: nat,
                  ghost c: Chain, ghost data: seq<Byte>) returns (sent': seq<Byte>, next: nat)
    requires ra.Ready(vol, c, data) && size <= |data| && k < Blocks(size)
    requires ra.ptr == HeaderSize(size) + 512 * k && |sent| == 512 * k
    requires key != [] && keyidx == |sent| % |key| && Covers(sent, data, HeaderSize(size), key)
    modifies ra`ptr, ra.buffer, ra.file`sector, ra.file`cluster
    modifies vol`bufferedFatIndex, vol.fatBuffer, vol.sectorBuffer
    ensures ra.ptr == HeaderSize(size) + 512 * (k + 1) && |sent'| == 512 * (k + 1) && next == |sent'| % |key|
    ensures Covers(sent', data, HeaderSize(size), key) && (k + 1 < Blocks(size) ==> ra.Ready(vol, c, data))
  {
    var block;
    block, next := SendBlock(ra, vol, key, keyidx, size, k, c, data);
    CoversMore(sent, data, HeaderSize(size), key, block);
    sent' := sent + block;
  }

  method SendBlock(ra: RaFile, vol: Volume, key: seq<Byte>, keyidx: nat, ghost size: nat, ghost k: nat, ghost c: Chain,
                   ghost data: seq<Byte>) returns (block: seq<Byte>, next: nat)
    requires ra.Ready(vol, c, data) && size <= |data| && k < Blocks(size) && ra.ptr == HeaderSize(size) + 512 * k
    requires key != [] && keyidx == 512 * k % |key|
    modifies ra`ptr, ra.buffer, ra.file`sector, ra.file`cluster
    modifies vol`bufferedFatIndex, vol.fatBuffer, vol.sectorBuffer
    ensures ra.ptr == old(ra.ptr) + 512 && next == (512 * k + 512) % |key| && |block| == 512
    ensures k + 1 < Blocks(size) ==> ra.Ready(vol, c, data)
    ensures forall j :: 0 <= j < 512 && old(ra.ptr) + j < |data| ==>
              block[j] == Xor(data[old(ra.ptr) + j], key[(512 * k + j) % |key|])
  {
    BlockFits(size, k, |data|);
    block, next := SendSector(ra, vol, key, keyidx, 512 * k, c, data);
  }

  lemma NothingSent(keysize: nat)
    requires keysize > 0
    ensures 0 % keysize == 0
  {
  }

  lemma CoversMore(sent: seq<Byte>, data: seq<Byte>, h: nat, key: seq<Byte>, block: seq<Byte>)
    requires key != [] && Covers(sent, data, h, key)
    requires forall j :: 0 <= j < |block| && h + |sent| + j < |data| ==>
               block[j] == Xor(data[h + |sent| + j], key[(|sent| + j) % |key|])
    ensures Covers(sent + block, data, h, key)
  {
    forall i | 0 <= i < |sent + block| && h + i < |data|
      ensures (sent + block)[i] == Xor(data[h + i], key[i % |key|])
    {
      if i >= |sent| { assert (sent + block)[i] == block[i - |sent|]; }
    }
  }

  /** Block k of the payload can be read, and all but the last one without going behind the chain. */
  lemma BlockFits(size: nat, k: nat, n: nat)
    requires size <= n && n % 512 == 0 && k < Blocks(size)
    ensures var ptr := HeaderSize(size) + 512 * k;
            && (Within(ptr, 512, n) || Straddles(ptr, 512, n))
            && (k + 1 < Blocks(size) ==> Within(ptr, 512, n))
  {
    var h := HeaderSize(size);
    PlanOfBlock(h, k);
    BlockNeeded(size - h, k);
  }

  /** The payload reaches half a sector into every block that is sent. */
  lemma BlockNeeded(payload: nat, k: nat)
    requires payload % 0x100 == 0 && k < (payload + 511) / 512
    ensures payload >= 512 * k + 256
    ensures k + 1 < (payload + 511) / 512 ==> payload >= 512 * (k + 1) + 256
  {
  }

  /** One block takes what is left in the private buffer and as much again from the next sector. */
  lemma PlanOfBlock(h: nat, k: nat)
    requires h < 0x100
    ensures var ptr := h + 512 * k;
            && NextSector(ptr) == k + (if h == 0 then 0 else 1)
            && FromSectors(ptr, 512) == (if h == 0 then 512 else h)
            && Drained(ptr, 512) == if h == 0 then 0 else 512 - h
  {
    MoreSectors(k, h);
    MoreSectors(k, h + 511);
  }

  /** One sector: read, combine, send. */
  method SendSector(ra: RaFile, vol: Volume, key: seq<Byte>, keyidx: nat, ghost i: nat, ghost c: Chain,
                    ghost data: seq<Byte>) returns (block: seq<Byte>, next: nat)
    requires ra.Ready(vol, c, data) && key != [] && keyidx == i % |key|
    requires Within(ra.ptr, 512, |data|) || Straddles(ra.ptr, 512, |data|)
    modifies ra`ptr, ra.buffer, ra.file`sector, ra.file`cluster
    modifies vol`bufferedFatIndex, vol.fatBuffer, vol.sectorBuffer
    ensures ra.ptr == old(ra.ptr) + 512 && next == (i + 512) % |key| && |block| == 512
    ensures Within(old(ra.ptr), 512, |data|) ==> ra.Ready(vol, c, data)
    ensures forall j :: 0 <= j < 512 && old(ra.ptr) + j < |data| ==>
              block[j] == Xor(data[old(ra.ptr) + j], key[(i + j) % |key|])
  {
    ghost var p := ra.ptr;
    var s := ra.RARead(vol, 512, c, data);
    BlockDelivered(s, data, p);
    FillBuffer(vol.sectorBuffer, s);
    next := EncryptSector(vol.sectorBuffer, key, keyidx, i);
    block := vol.sectorBuffer[..];
  }

  /** As far as the chain reaches, the block is the file's. */
  lemma BlockDelivered(s: seq<Byte>, data: seq<Byte>, p: nat)
    requires |s| == |Plan(p, 512)| && IsPart(s[..Drained(p, 512)], data, p)
    requires if Within(p, 512, |data|) then |s| == 512 && IsPart(s, data, p) else Straddles(p, 512, |data|)
    ensures |s| == 512 && forall j :: 0 <= j < 512 && p + j < |data| ==> s[j] == data[p + j]
  {
    if !Within(p, 512, |data|) {
      assert p + Drained(p, 512) == |data|;
      forall j | 0 <= j < 512 && p + j < |data|
        ensures s[j] == data[p + j]
      {
        assert s[..Drained(p, 512)][j] == s[j];
      }
    }
  }

  method FillBuffer(buffer: array<Byte>, s: seq<Byte>)
    requires buffer.Length == SECTOR_BYTES == |s|
    modifies buffer
    ensures buffer[..] == s
  {
    forall j | 0 <= j < SECTOR_BYTES {
      buffer[j] := s[j];
    }
  }

  /** Applying the key again restores the payload. */
  lemma KeyUndone(s: seq<Byte>, key: seq<Byte>)
    requires key != []
    ensures Encrypted(Encrypted(s, key), key) == s
  {
    forall i | 0 <= i < |s|
      ensures Xor(Xor(s[i], key[i % |key|]), key[i % |key|]) == s[i]
    {
      XorUndone(s[i], key[i % |key|]);
    }
  }

  /** A bit of the result is set exactly if it is set in one of the two bytes. */
  lemma XorBits(a: Byte, k: Byte, mask: bv8)
    requires mask in {0x01, 0x02, 0x04, 0x08, 0x10, 0x20, 0x40, 0x80}
    ensures Bit(Bv(Xor(a, k)), mask) <==> Bit(Bv(a), mask) != Bit(Bv(k), mask)
  {
    IntReads(Mix(Bv(a), Bv(k)));
    MixBits(Bv(a), Bv(k), mask);
  }

  /** A zero key byte changes nothing, a byte hides itself, and no two key bytes act alike. */
  lemma XorLaws(a: Byte, k: Byte, k': Byte)
    ensures Xor(a, 0) == a && Xor(a, a) == 0 && Xor(a, k) == Xor(k, a)
    ensures Xor(a, k) == Xor(a, k') ==> k == k'
  {
    MixLaws(Bv(a), Bv(k), Bv(k'));
    Converts(0);
    BvReads(a);
    IntReads(Mix(Bv(a), Bv(k)));
    IntReads(Mix(Bv(a), Bv(k')));
    BvInjective(k, k');
  }

  lemma XorUndone(a: Byte, k: Byte)
    ensures Xor(Xor(a, k), k) == a
  {
    var x, y := Bv(a), Bv(k);
    IntReads(Mix(x, y));
    assert Bv(Xor(a, k)) == Mix(x, y);
    MixTwice(x, y);
    BvReads(a);
  }

  predicate Bit(x: bv8, mask: bv8) { x & mask != 0 }

  lemma MixBits(x: bv8, y: bv8, mask: bv8)
    requires mask in {0x01, 0x02, 0x04, 0x08, 0x10, 0x20, 0x40, 0x80}
    ensures Bit(Mix(x, y), mask) <==> Bit(x, mask) != Bit(y, mask)
  {
  }

  lemma MixLaws(x: bv8, y: bv8, z: bv8)
    ensures Mix(x, 0) == x && Mix(x, x) == 0 && Mix(x, y) == Mix(y, x)
    ensures Mix(x, y) == Mix(x, z) ==> y == z
  {
  }

  lemma MixTwice(x: bv8, y: bv8)
    ensures Mix(Mix(x, y), y) == x
  {
  }
}
