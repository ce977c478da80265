/** Byte-granular reading of a file through sector reads, and the keystream applied over it. */
module RaFiles {
  import opened Words
  import opened Chains
  import opened Disks
  import opened FatVolume

  /** Consecutive byte offsets. */
  function Range(from: nat, n: nat): (r: seq<nat>)
    ensures |r| == n && forall i :: 0 <= i < n ==> r[i] == from + i
  {
    seq(n, i requires 0 <= i => from + i)
  }

  /** Bytes RARead takes from its private buffer: those from the block offset up to byte number
      `bytes` of the block. */
  function Drained(ptr: nat, bytes: nat): nat {
    var l := if bytes > 512 then 512 else bytes;
    if ptr % 512 == 0 || l < ptr % 512 then 0 else l - ptr % 512
  }

  /** Bytes it then reads from fresh sectors.  (l - blockoffset may be negative.) */
  function FromSectors(ptr: nat, bytes: nat): nat {
    var l := if bytes > 512 then 512 else bytes;
    if ptr % 512 == 0 then bytes else bytes - (l - ptr % 512)
  }

  function NextSector(ptr: nat): (n: nat)
    ensures ptr <= 512 * n && (ptr % 512 != 0 ==> n > 0)
  {
    (ptr + 511) / 512
  }

  /** The file offsets RARead delivers. */
  function Plan(ptr: nat, bytes: nat): seq<nat> {
    Range(ptr, Drained(ptr, bytes)) + Range(512 * NextSector(ptr), FromSectors(ptr, bytes))
  }

  /** RARead delivers the requested bytes in order exactly for reads that start on a sector boundary
      or ask for at least 512 bytes. */
  lemma PlanExact(ptr: nat, bytes: nat)
    ensures Plan(ptr, bytes) == Range(ptr, bytes) <==> ptr % 512 == 0 || bytes >= 512
  {
    var d := Drained(ptr, bytes);
    if ptr % 512 != 0 && bytes < 512 {
      if d + FromSectors(ptr, bytes) == bytes {
        assert Plan(ptr, bytes)[d] == 512 * NextSector(ptr) != ptr + d;
      }
    } else {
      assert d > 0 ==> 512 * NextSector(ptr) == ptr + d;
    }
  }

  /** `out` is what is stored from offset `from` on. */
  ghost predicate IsPart(out: seq<Byte>, data: seq<Byte>, from: nat) {
    from + |out| <= |data| && out == data[from..from + |out|]
  }

  lemma PartsJoin(a: seq<Byte>, b: seq<Byte>, data: seq<Byte>, from: nat)
    requires IsPart(a, data, from) && IsPart(b, data, from + |a|)
    ensures IsPart(a + b, data, from)
  {
  }

  lemma PartBegins(a: seq<Byte>, n: nat, data: seq<Byte>, from: nat)
    requires IsPart(a, data, from) && n <= |a|
    ensures IsPart(a[..n], data, from)
  {
  }

  /** The bytes of the whole chain, the file and what is behind its end. */
  ghost predicate Content(g: Geometry, d: Disk, c: Chain, data: seq<Byte>)
    requires g.clusterSize > 0
  {
    |data| == 512 * Capacity(g, c) && HasBytes(g, d, c, data, |data|)
  }

  class RaFile {
    const file: FileHandle
    const buffer: array<Byte>
    var size: nat
    var ptr: nat

    constructor (f: FileHandle)
      ensures file == f && buffer.Length == SECTOR_BYTES && fresh(buffer)
    {
      file := f;
      buffer := new Byte[SECTOR_BYTES];
      size, ptr := 0, 0;
    }

    /** The position is ptr: complete sectors in front of it were read, and the private buffer
        holds a sector that was read in part. */
    ghost predicate Ready(vol: Volume, c: Chain, data: seq<Byte>)
      reads this, file, buffer, vol, vol.fatBuffer
    {
      && Open(vol, c, data) && file.sector == NextSector(ptr) && 512 * NextSector(ptr) <= |data|
      && (ptr % 512 != 0 ==> IsPart(buffer[..], data, 512 * (NextSector(ptr) - 1)))
    }

    ghost predicate Open(vol: Volume, c: Chain, data: seq<Byte>)
      reads file, vol, vol.fatBuffer
    {
      && vol.Valid() && vol.Owns(c) && Content(vol.g, vol.disk, c, data) && buffer.Length == SECTOR_BYTES
      && buffer != vol.fatBuffer && buffer != vol.sectorBuffer
      && (if file.sector < Capacity(vol.g, c) then file.At(vol.g, c) else file.Past(vol.g, c))
    }

    /** RAOpen after FileOpen found the file. */
    method RAOpen(vol: Volume, ghost c: Chain, ghost data: seq<Byte>)
      requires Open(vol, c, data) && file.sector == 0
      modifies this`size, this`ptr
      ensures Ready(vol, c, data) && ptr == 0 && size == file.size
    {
      size, ptr := file.size, 0;
    }

    /** RARead.  The bytes stored at pBuffer are the result.  When the fresh part lies behind the end
        of the chain, only what comes from the private buffer is the file's. */
    method RARead(vol: Volume, bytes: nat, ghost c: Chain, ghost data: seq<Byte>) returns (out: seq<Byte>)
      requires Ready(vol, c, data) && (Within(ptr, bytes, |data|) || Straddles(ptr, bytes, |data|))
      modifies this`ptr, buffer, file`sector, file`cluster, vol`bufferedFatIndex, vol.fatBuffer
      ensures ptr == old(ptr) + bytes && |out| == |Plan(old(ptr), bytes)|
      ensures IsPart(out[..Drained(old(ptr), bytes)], data, old(ptr))
      ensures Within(old(ptr), bytes, |data|) ==> out == Pick(data, Plan(old(ptr), bytes)) && Open(vol, c, data)
      ensures Within(old(ptr), bytes, |data|) && (old(ptr) % 512 == 0 || bytes >= 512) ==>
                Ready(vol, c, data) && |out| == bytes && IsPart(out, data, old(ptr))
    {
      ghost var p := ptr;
      var first, left := Drain(bytes, data);
      var rest := ReadFresh(vol, left, c, data);
      out := first + rest;
      assert out[..|first|] == first;
      if Within(p, bytes, |data|) {
        Delivered(data, p, bytes, first, rest);
        if p % 512 == 0 || bytes >= 512 { ReadyAgain(vol, c, data, p, bytes); }
      }
    }

    lemma ReadyAgain(vol: Volume, c: Chain, data: seq<Byte>, p: nat, bytes: nat)
      requires Open(vol, c, data) && (p % 512 == 0 || bytes >= 512) && ptr == p + bytes
      requires Within(p, bytes, |data|)
      requires file.sector == NextSector(p) + (FromSectors(p, bytes) + 511) / 512
      requires FromSectors(p, bytes) % 512 != 0 ==> file.sector > 0 && IsPart(buffer[..], data, 512 * (file.sector - 1))
      ensures Ready(vol, c, data)
    {
      SectorsUsed(p, bytes);
    }

    /** The first part of RARead: what is left in the private buffer. */
    method Drain(bytes: nat, ghost data: seq<Byte>) returns (out: seq<Byte>, left: nat)
      requires buffer.Length == SECTOR_BYTES && 512 * NextSector(ptr) <= |data|
      requires ptr % 512 != 0 ==> IsPart(buffer[..], data, 512 * (NextSector(ptr) - 1))
      modifies this`ptr
      ensures left == FromSectors(old(ptr), bytes) && ptr + left == old(ptr) + bytes
      ensures |out| == Drained(old(ptr), bytes) && IsPart(out, data, old(ptr))
    {
      var blockoffset := ptr % 512;
      out, left := [], bytes;
      if blockoffset == 0 { return; }
      var l := if bytes > 512 then 512 else bytes;
      ghost var base := ptr - blockoffset;
      assert base == 512 * (NextSector(ptr) - 1);
      var i := blockoffset;
      while i < l
        invariant blockoffset <= i && (blockoffset <= l ==> i <= l) && (l < blockoffset ==> i == blockoffset)
        invariant out == data[base + blockoffset..base + i]
      {
        assert buffer[i] == buffer[..][i] == data[base + i];
        out := out + [buffer[i]];
        i := i + 1;
      }
      ptr := ptr + (l - blockoffset);
      left := bytes - (l - blockoffset);
    }

    /** The rest of RARead: whole sectors, then part of one through the private buffer. */
    method ReadFresh(vol: Volume, bytes: nat, ghost c: Chain, ghost data: seq<Byte>) returns (out: seq<Byte>)
      requires Open(vol, c, data)
      requires 512 * file.sector + bytes <= |data| || (512 * file.sector == |data| && bytes < 512)
      modifies this`ptr, buffer, file`sector, file`cluster, vol`bufferedFatIndex, vol.fatBuffer
      ensures ptr == old(ptr) + bytes && |out| == bytes
      ensures old(512 * file.sector) + bytes <= |data| ==>
                && Open(vol, c, data) && IsPart(out, data, 512 * old(file.sector))
                && file.sector == old(file.sector) + (bytes + 511) / 512
                && (bytes % 512 != 0 ==> file.sector > 0 && IsPart(buffer[..], data, 512 * (file.sector - 1)))
    {
      var left;
      ghost var done, at := 0, file.sector;
      out, left, done := ReadWholes(vol, bytes, c, data);
      WholesAndRest(bytes, done, left);
      if left > 0 {
        var rest := ReadRest(vol, left, c, data);
        if 512 * at + bytes <= |data| { PartsJoin(out, rest, data, 512 * at); }
        out := out + rest;
      }
    }

    /** The part of a sector that is read through the private buffer. */
    method ReadRest(vol: Volume, left: nat, ghost c: Chain, ghost data: seq<Byte>) returns (out: seq<Byte>)
      requires Open(vol, c, data) && 512 * file.sector <= |data| && 0 < left < 512
      modifies this`ptr, buffer, file`sector, file`cluster, vol`bufferedFatIndex, vol.fatBuffer
      ensures ptr == old(ptr) + left && |out| == left
      ensures old(512 * file.sector) < |data| ==>
                && Open(vol, c, data) && file.sector == old(file.sector) + 1
                && IsPart(out, data, 512 * old(file.sector)) && IsPart(buffer[..], data, 512 * old(file.sector))
    {
      ghost var at := file.sector;
      LoadBuffer(vol, c, data);
      if 512 * at < |data| { PartBegins(buffer[..], left, data, 512 * at); }
      out := buffer[..left];
      ptr := ptr + left;
    }

    /** The loop over whole sectors. */
    method ReadWholes(vol: Volume, bytes: nat, ghost c: Chain, ghost data: seq<Byte>)
      returns (out: seq<Byte>, left: nat, ghost done: nat)
      requires Open(vol, c, data) && (512 * file.sector + bytes <= |data| || bytes < 512)
      modifies this`ptr, file`sector, file`cluster, vol`bufferedFatIndex, vol.fatBuffer
      ensures Open(vol, c, data) && left < 512 && left + 512 * done == bytes && ptr + left == old(ptr) + bytes
      ensures file.sector == old(file.sector) + done && |out| == 512 * done
      ensures done == 0 || IsPart(out, data, 512 * old(file.sector))
    {
      left := bytes;
      out, done := [], 0;
      while left > 511
        invariant Open(vol, c, data) && file.sector == old(file.sector) + done
        invariant left + 512 * done == bytes && ptr == old(ptr) + 512 * done
        invariant |out| == 512 * done && (done == 0 || IsPart(out, data, 512 * old(file.sector)))
      {
        var s := NextWhole(vol, c, data);
        PartsJoin(out, s, data, 512 * old(file.sector));
        out := out + s;
        left, ptr, done := left - 512, ptr + 512, done + 1;
      }
    }

    method NextWhole(vol: Volume, ghost c: Chain, ghost data: seq<Byte>) returns (s: Sector)
      requires Open(vol, c, data) && 512 * file.sector + 512 <= |data|
      modifies file`sector, file`cluster, vol`bufferedFatIndex, vol.fatBuffer
      ensures Open(vol, c, data) && file.sector == old(file.sector) + 1
      ensures IsPart(s, data, 512 * old(file.sector))
    {
      s := vol.FileReadDirect(file);
      SectorBytes(vol.g, vol.disk, c, data, file.sector, 512);
      vol.FileNextSector(file, c);
    }

    method LoadBuffer(vol: Volume, ghost c: Chain, ghost data: seq<Byte>)
      requires Open(vol, c, data) && 512 * file.sector <= |data|
      modifies buffer, file`sector, file`cluster, vol`bufferedFatIndex, vol.fatBuffer
      ensures old(512 * file.sector) < |data| ==>
                && Open(vol, c, data) && file.sector == old(file.sector) + 1
                && IsPart(buffer[..], data, 512 * old(file.sector))
    {
      if 512 * file.sector < |data| { SectorBytes(vol.g, vol.disk, c, data, file.sector, 512); }
      vol.FileRead(file, buffer, 0);
      vol.FileNextSector(file, c);
    }
  }

  lemma WholesAndRest(bytes: nat, wholes: nat, rest: nat)
    requires bytes == 512 * wholes + rest && rest < 512
    ensures bytes % 512 == rest && (bytes + 511) / 512 == wholes + if rest == 0 then 0 else 1
  {
  }

  /** After a read that starts on a boundary or is long enough, the file stands behind the sector
      the new position is in. */
  lemma SectorsUsed(ptr: nat, bytes: nat)
    ensures ptr % 512 == 0 || bytes >= 512 ==>
              var n := NextSector(ptr) + (FromSectors(ptr, bytes) + 511) / 512;
              var end := ptr + bytes;
              && n == NextSector(end) && FromSectors(ptr, bytes) % 512 == end % 512
              && end == 512 * NextSector(ptr) + FromSectors(ptr, bytes)
  {
    if ptr % 512 == 0 || bytes >= 512 {
      var n, f := NextSector(ptr), FromSectors(ptr, bytes);
      assert ptr + bytes == 512 * n + f;
      MoreSectors(n, f + 511);
      MoreSectors(n, f);
    }
  }

  lemma MoreSectors(n: nat, b: nat)
    ensures (512 * n + b) / 512 == n + b / 512 && (512 * n + b) % 512 == b % 512
  {
  }

  /** The read stays on the chain, whose sectors hold n bytes ... */
  predicate Within(ptr: nat, bytes: nat, n: nat) { 512 * NextSector(ptr) + FromSectors(ptr, bytes) <= n }

  /** ... or needs part of the sector behind its last one. */
  predicate Straddles(ptr: nat, bytes: nat, n: nat) { 512 * NextSector(ptr) == n && FromSectors(ptr, bytes) < 512 }

  ghost function Pick(data: seq<Byte>, offsets: seq<nat>): (r: seq<Byte>)
    ensures |r| == |offsets|
  {
    seq(|offsets|, i requires 0 <= i < |offsets| => if offsets[i] < |data| then data[offsets[i]] else 0)
  }

  lemma PickRange(data: seq<Byte>, from: nat, n: nat)
    requires from + n <= |data|
    ensures Pick(data, Range(from, n)) == data[from..from + n]
  {
  }

  lemma Delivered(data: seq<Byte>, ptr: nat, bytes: nat, first: seq<Byte>, rest: seq<Byte>)
    requires |first| == Drained(ptr, bytes) && IsPart(first, data, ptr)
    requires |rest| == FromSectors(ptr, bytes) && IsPart(rest, data, 512 * NextSector(ptr))
    ensures first + rest == Pick(data, Plan(ptr, bytes))
    ensures ptr % 512 == 0 || bytes >= 512 ==> |first + rest| == bytes && IsPart(first + rest, data, ptr)
  {
    var p, q := Range(ptr, Drained(ptr, bytes)), Range(512 * NextSector(ptr), FromSectors(ptr, bytes));
    PickRange(data, ptr, Drained(ptr, bytes));
    PickRange(data, 512 * NextSector(ptr), FromSectors(ptr, bytes));
    PickJoin(data, p, q);
    if ptr % 512 == 0 || bytes >= 512 {
      assert Drained(ptr, bytes) > 0 ==> ptr + Drained(ptr, bytes) == 512 * NextSector(ptr);
      PartsJoin(first, rest, data, ptr);
    }
  }

  lemma PickJoin(data: seq<Byte>, p: seq<nat>, q: seq<nat>)
    ensures Pick(data, p + q) == Pick(data, p) + Pick(data, q)
  {
  }
}
