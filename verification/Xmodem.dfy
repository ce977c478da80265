/** XMODEM upload: the receiver's byte protocol, the file it writes, and what an error-free sender
    ends up with. */
module Xmodem {
  import opened Words
  import opened Chains
  import opened Disks
  import opened FatVolume
  import D = Directory

  const SOH: Byte := 0x01
  const EOT: Byte := 0x04
  const ACK: Byte := 0x06
  const NAK: Byte := 0x15
  const BLOCK_BYTES: nat := 128
  const FRAME_BYTES: nat := 132   // SOH, number, inverted number, data, checksum

  // ---------- the byte protocol ----------

  datatype State = IDLE | EXP_SOH1 | EXP_SOH | BLKNO | DATA | CHK

  datatype Proto = Proto(state: State, block: Byte, chk: Byte, count: nat)

  /** What a received byte makes the receiver do. */
  datatype Event = Nothing | Answer(reply: Byte) | Take(byte: Byte) | Finish

  /** The test `block == 0xff^byte` parses as (block == 0xff) ^ byte: it accepts the inverted
      number, and every other byte but one. */
  predicate SecondAccepted(block: Byte, byte: Byte) {
    byte != if block == 0xFF then 1 else 0
  }

  function Next(p: Proto, byte: Byte): (Proto, Event) {
    match p.state
    case IDLE => (p, Nothing)
    case EXP_SOH1 => Header(p, byte)
    case EXP_SOH => Header(p, byte)
    case BLKNO =>
      if p.count == 0 && p.block == byte then (p.(count := 1), Nothing)
      else if p.count == 1 && SecondAccepted(p.block, byte) then (p.(count := 0, state := DATA, chk := 0), Nothing)
      else (p.(state := EXP_SOH, count := 0), Answer(NAK))
    case DATA =>
      (p.(chk := (p.chk as int + byte as int) % 0x100, count := p.count + 1,
          state := if p.count + 1 == BLOCK_BYTES then CHK else DATA), Take(byte))
    case CHK =>
      var q := p.(state := EXP_SOH, count := 0);
      if p.chk == byte then (q.(block := (p.block as int + 1) % 0x100), Answer(ACK)) else (q, Answer(NAK))
  }

  function Header(p: Proto, byte: Byte): (Proto, Event) {
    if byte == SOH then (p.(state := BLKNO, count := 0), Nothing)
    else if byte == EOT then (p.(state := IDLE), Finish)
    else (p, Nothing)
  }

  // ---------- an error-free sender ----------

  function Checksum(data: seq<Byte>): Byte {
    if |data| == 0 then 0
    else (Checksum(data[..|data| - 1]) as int + data[|data| - 1] as int) % 0x100
  }

  predicate Blocks(data: seq<Byte>) { |data| % BLOCK_BYTES == 0 }

  /** Bytes of the frames that carry `data`. */
  function ScriptLength(data: seq<Byte>): nat { |data| / BLOCK_BYTES * FRAME_BYTES }

  function ScriptByte(data: seq<Byte>, p: nat): Byte
    requires Blocks(data) && p < ScriptLength(data)
  {
    var i, off := p / FRAME_BYTES, p % FRAME_BYTES;
    assert BLOCK_BYTES * i + BLOCK_BYTES <= |data|;
    match off
    case 0 => SOH
    case 1 => (i + 1) % 0x100
    case 2 => 0xFF - (i + 1) % 0x100
    case 131 => Checksum(data[BLOCK_BYTES * i..BLOCK_BYTES * i + BLOCK_BYTES])
    case _ => data[BLOCK_BYTES * i + (off - 3)]
  }

  /** Data bytes among the first p bytes of the frames. */
  function Delivered(p: nat): nat {
    var i, off := p / FRAME_BYTES, p % FRAME_BYTES;
    BLOCK_BYTES * i + if off <= 3 then 0 else off - 3
  }

  /** Where the receiver is after p bytes. */
  ghost predicate Following(data: seq<Byte>, p: nat, r: Proto)
    requires Blocks(data) && p <= ScriptLength(data)
  {
    var i, off := p / FRAME_BYTES, p % FRAME_BYTES;
    && r.block == (i + 1) % 0x100
    && (off == 0 ==> r.state == EXP_SOH1 || r.state == EXP_SOH)
    && (off == 1 ==> r.state == BLKNO && r.count == 0)
    && (off == 2 ==> r.state == BLKNO && r.count == 1)
    && (3 <= off ==>
          && r.state == (if off == 131 then CHK else DATA) && r.count == off - 3
          && BLOCK_BYTES * i + (off - 3) <= |data|
          && r.chk == Checksum(data[BLOCK_BYTES * i..BLOCK_BYTES * i + (off - 3)]))
  }

  /** What the receiver does with byte p of the frames. */
  function EventAt(data: seq<Byte>, p: nat): Event
    requires Blocks(data) && p < ScriptLength(data)
  {
    var off := p % FRAME_BYTES;
    if off <= 2 then Nothing
    else if off == 131 then Answer(ACK)
    else Take(ScriptByte(data, p))
  }

  /** The receiver keeps in step with an error-free sender: it takes the data bytes in order and
      acknowledges every block, also when the block number wraps. */
  lemma StepFollows(data: seq<Byte>, p: nat, r: Proto)
    requires Blocks(data) && p < ScriptLength(data) && Following(data, p, r)
    ensures var (q, e) := Next(r, ScriptByte(data, p));
            Following(data, p + 1, q) && e == EventAt(data, p)
    ensures Delivered(p) <= |data|
    ensures EventAt(data, p).Take? ==> Delivered(p) < |data| && EventAt(data, p).byte == data[Delivered(p)]
                                       && Delivered(p + 1) == Delivered(p) + 1
    ensures !EventAt(data, p).Take? ==> Delivered(p + 1) == Delivered(p)
  {
    var i, off := p / FRAME_BYTES, p % FRAME_BYTES;
    var a := BLOCK_BYTES * i;
    if off == 131 {
      assert (p + 1) / FRAME_BYTES == i + 1 && (p + 1) % FRAME_BYTES == 0;
    } else {
      assert (p + 1) / FRAME_BYTES == i && (p + 1) % FRAME_BYTES == off + 1;
    }
    if 3 <= off < 131 {
      var s := data[a..a + (off - 2)];
      assert s[..|s| - 1] == data[a..a + (off - 3)];
    }
  }

  /** The precedence of `block == 0xff^byte`: of the 256 bytes that can follow a block number, the
      receiver judges two correctly, the complement and the one byte it refuses. */
  lemma SecondNumberUnchecked(p: Proto, byte: Byte)
    requires p.state == BLKNO && p.count == 1
    ensures (Next(p, byte).0.state == DATA <==> byte == 0xFF - p.block)
       <==> byte == 0xFF - p.block || byte == if p.block == 0xFF then 1 else 0
  {
  }

  // ---------- any frame at all ----------

  /** The receiver after some bytes, and what it did with each of them. */
  function After(p: Proto, bytes: seq<Byte>): (r: (Proto, seq<Event>))
    ensures |r.1| == |bytes|
  {
    if |bytes| == 0 then (p, [])
    else
      var (q, events) := After(p, bytes[..|bytes| - 1]);
      var (r, event) := Next(q, bytes[|bytes| - 1]);
      (r, events + [event])
  }

  lemma AfterNext(p: Proto, bytes: seq<Byte>, n: nat)
    requires n < |bytes|
    ensures After(p, bytes[..n + 1]).0 == Next(After(p, bytes[..n]).0, bytes[n]).0
    ensures After(p, bytes[..n + 1]).1 == After(p, bytes[..n]).1 + [Next(After(p, bytes[..n]).0, bytes[n]).1]
  {
    assert bytes[..n + 1][..n] == bytes[..n];
  }

  /** What the receiver did with the bytes of a frame in front of its checksum. */
  ghost predicate TookData(events: seq<Event>, f: seq<Byte>) {
    && |events| <= |f|
    && forall i :: 0 <= i < |events| ==> events[i] == if i < 3 then Nothing else Take(f[i])
  }

  predicate Awaiting(p: Proto) { p.state == EXP_SOH1 || p.state == EXP_SOH }

  /** A frame that the receiver reads to its end: its number is the expected one, and the byte behind
      it one that passes. */
  predicate Frame(p: Proto, f: seq<Byte>) {
    && |f| == FRAME_BYTES && f[0] == SOH && f[1] == p.block && f[2] != (if p.block == 0xFF then 1 else 0)
  }

  lemma AfterHeader(p: Proto, f: seq<Byte>)
    requires Awaiting(p) && Frame(p, f)
    ensures var (q, events) := After(p, f[..3]);
            q == Proto(DATA, p.block, 0, 0) && |events| == 3 && TookData(events, f)
  {
    assert f[..0] == [];
    AfterNext(p, f, 0);
    AfterNext(p, f, 1);
    AfterNext(p, f, 2);
  }

  lemma {:induction false} AfterData(p: Proto, f: seq<Byte>, n: nat)
    requires Awaiting(p) && Frame(p, f) && n <= BLOCK_BYTES
    ensures var (q, events) := After(p, f[..3 + n]);
            && q == Proto(if n == BLOCK_BYTES then CHK else DATA, p.block, Checksum(f[3..3 + n]), n)
            && |events| == 3 + n && TookData(events, f)
  {
    if n == 0 {
      AfterHeader(p, f);
    } else {
      AfterData(p, f, n - 1);
      AfterNext(p, f, 2 + n);
      assert f[3..3 + n][..n - 1] == f[3..3 + (n - 1)];
    }
  }

  /** Whatever a frame holds, its 128 bytes are taken in order, it is acknowledged exactly if the last
      byte is their checksum, and only then the next number is expected. */
  lemma FrameJudged(p: Proto, f: seq<Byte>)
    requires Awaiting(p) && Frame(p, f)
    ensures var (q, events) := After(p, f);
            var good := f[131] == Checksum(f[3..131]);
            && TookData(events[..131], f) && events[131] == Answer(if good then ACK else NAK)
            && q.state == EXP_SOH && q.block == if good then (p.block as int + 1) % 0x100 else p.block
  {
    AfterData(p, f, BLOCK_BYTES);
    AfterNext(p, f, 131);
    assert f[..132] == f && f[..3 + BLOCK_BYTES] == f[..131];
    assert After(p, f).1[..131] == After(p, f[..131]).1;
  }

  /** A frame with another number is refused at once, and none of it is taken. */
  lemma OtherNumberRefused(p: Proto, number: Byte)
    requires Awaiting(p) && number != p.block
    ensures var (q, events) := After(p, [SOH, number]);
            events == [Nothing, Answer(NAK)] && q.state == EXP_SOH && q.block == p.block
  {
    var f := [SOH, number];
    assert f[..0] == [] && f[..2] == f;
    AfterNext(p, f, 0);
    AfterNext(p, f, 1);
  }

  /** The checksum notices every change of one byte. */
  lemma {:induction false} ChecksumDetects(data: seq<Byte>, i: nat, b: Byte)
    requires i < |data|
    ensures Checksum(data[i := b]) == Checksum(data) <==> b == data[i]
  {
    var last := |data| - 1;
    if i < last {
      assert data[i := b][..last] == data[..last][i := b];
      ChecksumDetects(data[..last], i, b);
      SumDetects(Checksum(data[..last][i := b]), Checksum(data[..last]), data[last]);
    } else {
      assert data[i := b][..last] == data[..last];
      SumDetects(b, data[last], Checksum(data[..last]));
    }
  }

  lemma SumDetects(a: Byte, b: Byte, c: Byte)
    ensures (a as int + c as int) % 0x100 == (b as int + c as int) % 0x100 <==> a == b
    ensures (c as int + a as int) % 0x100 == (c as int + b as int) % 0x100 <==> a == b
  {
  }

  /** The data bytes that went to the sector buffer. */
  function Takes(events: seq<Event>): seq<Byte> {
    if |events| == 0 then []
    else
      var event := events[|events| - 1];
      Takes(events[..|events| - 1]) + if event.Take? then [event.byte] else []
  }

  lemma {:induction false} TakesData(events: seq<Event>, f: seq<Byte>)
    requires TookData(events, f)
    ensures Takes(events) == if |events| <= 3 then [] else f[3..|events|]
  {
    if |events| > 0 {
      TakesData(events[..|events| - 1], f);
    }
  }

  /** The receiver after some frames. */
  function AfterAll(p: Proto, frames: seq<seq<Byte>>): Proto {
    if |frames| == 0 then p else After(AfterAll(p, frames[..|frames| - 1]), frames[|frames| - 1]).0
  }

  /** Each frame carries the number that the receiver expects by then: a sender that repeats a frame
      when it is refused. */
  ghost predicate InTurn(p: Proto, frames: seq<seq<Byte>>) {
    forall k {:trigger frames[k]} :: 0 <= k < |frames| ==> Frame(AfterAll(p, frames[..k]), frames[k])
  }

  predicate Intact(f: seq<Byte>)
    requires |f| == FRAME_BYTES
  {
    f[131] == Checksum(f[3..131])
  }

  /** All data that was taken, and the data of the frames that were acknowledged. */
  function AllTaken(p: Proto, frames: seq<seq<Byte>>): seq<Byte> {
    if |frames| == 0 then []
    else
      var before := frames[..|frames| - 1];
      AllTaken(p, before) + Takes(After(AfterAll(p, before), frames[|frames| - 1]).1)
  }

  function AllAcknowledged(p: Proto, frames: seq<seq<Byte>>): seq<Byte> {
    if |frames| == 0 then []
    else
      var before, f := frames[..|frames| - 1], frames[|frames| - 1];
      var acked := Answer(ACK) in After(AfterAll(p, before), f).1;
      AllAcknowledged(p, before) + if acked then Takes(After(AfterAll(p, before), f).1) else []
  }

  lemma FrameTaken(p: Proto, f: seq<Byte>)
    requires Awaiting(p) && Frame(p, f)
    ensures Takes(After(p, f).1) == f[3..131] && Awaiting(After(p, f).0)
    ensures Answer(ACK) in After(p, f).1 <==> Intact(f)
  {
    FrameJudged(p, f);
    var events := After(p, f).1;
    TakesData(events[..131], f);
    assert events[..|events| - 1] == events[..131];
    if Intact(f) {
      assert events[131] == Answer(ACK);
    } else {
      forall i | 0 <= i < 132
        ensures events[i] != Answer(ACK)
      {
        if i < 131 { assert events[i] == events[..131][i]; }
      }
    }
  }

  /** The receiver does not take back the data of a frame it refuses: what it has taken is what it has
      acknowledged if and only if no frame failed its checksum. */
  lemma {:induction false} TakenIsAcknowledged(p: Proto, frames: seq<seq<Byte>>)
    requires Awaiting(p) && InTurn(p, frames)
    ensures Awaiting(AfterAll(p, frames)) && |AllTaken(p, frames)| == BLOCK_BYTES * |frames|
    ensures |AllAcknowledged(p, frames)| <= |AllTaken(p, frames)|
    ensures AllTaken(p, frames) == AllAcknowledged(p, frames)
       <==> forall k {:trigger frames[k]} :: 0 <= k < |frames| ==> Intact(frames[k])
  {
    if |frames| > 0 {
      var last := |frames| - 1;
      var before, f := frames[..last], frames[last];
      InTurnBefore(p, frames);
      TakenIsAcknowledged(p, before);
      FrameTaken(AfterAll(p, before), f);
      OneMoreFrame(AllTaken(p, before), AllAcknowledged(p, before), f[3..131], Intact(f));
      assert frames == before + [f];
    }
  }

  lemma InTurnBefore(p: Proto, frames: seq<seq<Byte>>)
    requires |frames| > 0 && InTurn(p, frames)
    ensures InTurn(p, frames[..|frames| - 1])
    ensures Frame(AfterAll(p, frames[..|frames| - 1]), frames[|frames| - 1])
  {
    var before := frames[..|frames| - 1];
    forall k {:trigger before[k]} | 0 <= k < |before|
      ensures Frame(AfterAll(p, before[..k]), before[k])
    {
      assert before[..k] == frames[..k] && before[k] == frames[k];
    }
  }

  lemma OneMoreFrame(taken: seq<Byte>, acked: seq<Byte>, data: seq<Byte>, good: bool)
    requires |acked| <= |taken| && |data| == BLOCK_BYTES
    ensures taken + data == acked + (if good then data else []) <==> good && taken == acked
  {
    if taken + data == acked + (if good then data else []) {
      assert |taken + data| == |acked + (if good then data else [])|;
      assert (taken + data)[..|taken|] == taken;
      if good { assert (acked + data)[..|acked|] == acked; }
    }
  }

  // ---------- the file being written ----------

  function SectorsFor(bytes: nat): nat { (bytes + 511) / 512 }

  function ClustersFor(g: Geometry, bytes: nat): nat
    requires g.clusterSize > 0
  {
    (SectorsFor(bytes) + g.clusterSize - 1) / g.clusterSize
  }

  /** A file of that many bytes has `need` clusters, and a chain c can still grow to them. */
  ghost predicate Budget(g: Geometry, t: Table, c: Chain, bytes: nat, need: nat)
    requires g.Valid() && |t| == g.Entries()
  {
    SectorsFor(bytes) <= g.clusterSize * need && need <= |c| + FreeCount(t, g.shape.clusterLimit)
  }

  /** The first n sectors of the file on chain c hold the first 512 * n bytes of `got`. */
  ghost predicate Holds(g: Geometry, d: Disk, c: Chain, got: seq<Byte>, n: nat)
    requires g.clusterSize > 0
  {
    && 512 * n <= |got|
    && forall k :: 0 <= k < n ==>
         k / g.clusterSize < |c| && FileSector(g, d, c, k) == got[512 * k..512 * k + 512]
  }

  /** The card when the file was created or opened, the file's chain then, and the number of free
      clusters from before, to be found in the FSInfo sector `info`. */
  datatype Aside = Aside(before: Disk, mine: Chain, info: nat, free: int)

  /** Cluster k belongs to something else on the card. */
  ghost predicate Elsewhere(g: Geometry, a: Aside, k: nat) {
    2 <= k < g.shape.clusterLimit && k < g.Entries() && TableOf(g, a.before)[k] != 0 && k !in a.mine
  }

  ghost predicate Undisturbed(g: Geometry, a: Aside, t: Table, d: Disk, c: Chain, change: int)
    requires g.Valid() && |t| == g.Entries()
  {
    && FreeCount(t, g.shape.clusterLimit) + change == a.free
    && a.info < g.fatStart && Rd(d, a.info) == Rd(a.before, a.info)
    && OthersKept(g, a, t, d, c)
  }

  /** Clusters of other files and directories keep their links and contents, and so does what lies
      between the FAT and the data area. */
  ghost predicate OthersKept(g: Geometry, a: Aside, t: Table, d: Disk, c: Chain)
    requires g.Valid() && |t| == g.Entries()
  {
    && RootKept(g, a.before, d)
    && forall k: nat {:trigger Elsewhere(g, a, k)} :: Elsewhere(g, a, k) ==> ClusterKept(g, a, t, d, c, k)
  }

  ghost predicate ClusterKept(g: Geometry, a: Aside, t: Table, d: Disk, c: Chain, k: nat)
    requires k >= 2
  {
    && k < |t| && k < g.Entries() && t[k] == TableOf(g, a.before)[k] && k !in c
    && SectorsKept(g, a.before, d, k)
  }

  ghost predicate SectorsKept(g: Geometry, d: Disk, d': Disk, k: nat)
    requires k >= 2
  {
    forall lba :: ClusterStart(g, k) <= lba < ClusterStart(g, k) + g.clusterSize ==> Rd(d', lba) == Rd(d, lba)
  }

  ghost predicate RootKept(g: Geometry, d: Disk, d': Disk) {
    forall lba :: g.FatEnd() <= lba < g.dataStart ==> Rd(d', lba) == Rd(d, lba)
  }

  class Receiver {
    const file: FileHandle
    var proto: Proto
    var filelen: nat
    var sectorPtr: nat
    var sectorCount: nat
    var replies: seq<Byte>
    ghost var chain: Chain
    ghost var full: nat          // complete sectors received
    ghost var aside: Aside       // what the upload must not disturb

    constructor (f: FileHandle)
      ensures file == f && proto == Proto(IDLE, 0, 0, 0)
    {
      file, proto, filelen, sectorPtr, sectorCount, replies, chain, full := f, Proto(IDLE, 0, 0, 0), 0, 0, 0, [], [], 0;
      aside := Aside(map[], [], 0, 0);
    }

    /** The handle stands on the file's chain, which can still grow to the announced length. */
    ghost predicate Ready(vol: Volume, length: nat, need: nat)
      reads this, file, vol, vol.fatBuffer
    {
      && vol.Valid() && vol.Owns(chain) && file.At(vol.g, chain) && Budget(vol.g, vol.T(), chain, length, need)
      && vol.infoSector == aside.info
      && Undisturbed(vol.g, aside, vol.T(), vol.disk, chain, file.clusterChange)
    }

    /** `got` was received of a file announced with `length` bytes: complete sectors are on the
        card, the rest is in the sector buffer, and enough clusters are left for the whole file. */
    ghost predicate Holding(vol: Volume, length: nat, need: nat, got: seq<Byte>)
      reads this, file, vol, vol.fatBuffer, vol.sectorBuffer
    {
      && Ready(vol, length, need)
      && sectorPtr == sectorCount < 512 && |got| == 512 * full + sectorCount
      && Holds(vol.g, vol.disk, chain, got, full)
      && vol.sectorBuffer[..sectorCount] == got[512 * full..]
      && (if filelen > 0 then filelen == length - 512 * full && file.sector == full
          else sectorCount == 0 && 512 * (full - 1) < length <= 512 * full && file.sector == full - 1)
    }

    /** Nothing was received yet. */
    ghost predicate Begun(vol: Volume, length: nat, need: nat)
      reads this, file, vol, vol.fatBuffer
    {
      && Ready(vol, length, need) && filelen == length > 0
      && sectorPtr == sectorCount == 0 && full == 0 && file.sector == 0
    }

    lemma BegunHolds(vol: Volume, length: nat, need: nat)
      requires Begun(vol, length, need)
      ensures Holding(vol, length, need, [])
    {
      assert vol.sectorBuffer[..0] == [];
    }

    /** The DATA state: store one byte, and a complete sector. */
    method StoreByte(vol: Volume, b: Byte, ghost length: nat, ghost need: nat, ghost got: seq<Byte>)
      requires Holding(vol, length, need, got) && filelen > 0
      modifies this`filelen, this`sectorPtr, this`sectorCount, this`chain, this`full
      modifies file`sector, file`cluster, file`clusterChange
      modifies vol`bufferedFatIndex, vol`disk, vol.fatBuffer, vol.sectorBuffer
      ensures Holding(vol, length, need, got + [b])
    {
      vol.sectorBuffer[sectorPtr] := b;
      sectorPtr, sectorCount := sectorPtr + 1, sectorCount + 1;
      HoldsMore(vol.g, vol.disk, chain, got, b, full);
      assert vol.sectorBuffer[..sectorCount] == (got + [b])[512 * full..];
      if sectorCount == 512 {
        StoreSector(vol, length, need, got + [b]);
      }
    }

    /** A sector is complete: write it and step to the next one if more is to come. */
    method StoreSector(vol: Volume, ghost length: nat, ghost need: nat, ghost got: seq<Byte>)
      requires Ready(vol, length, need)
      requires |got| == 512 * full + 512 && filelen == length - 512 * full > 0 && file.sector == full
      requires vol.sectorBuffer[..512] == got[512 * full..]
      requires Holds(vol.g, vol.disk, chain, got, full)
      modifies this`filelen, this`sectorPtr, this`sectorCount, this`chain, this`full
      modifies file`sector, file`cluster, file`clusterChange
      modifies vol`bufferedFatIndex, vol`disk, vol.fatBuffer
      ensures Holding(vol, length, need, got)
    {
      assert vol.sectorBuffer[..] == got[512 * file.sector..512 * file.sector + 512];
      Commit(vol, length, need, got);
      Continue(vol, length, need, got);
    }

    /** What follows the write of a complete sector. */
    method Continue(vol: Volume, ghost length: nat, ghost need: nat, ghost got: seq<Byte>)
      requires Ready(vol, length, need)
      requires |got| == 512 * full + 512 && filelen == length - 512 * full > 0 && file.sector == full
      requires Holds(vol.g, vol.disk, chain, got, full + 1)
      modifies this`filelen, this`sectorPtr, this`sectorCount, this`chain, this`full
      modifies file`sector, file`cluster, file`clusterChange
      modifies vol`bufferedFatIndex, vol`disk, vol.fatBuffer
      ensures Holding(vol, length, need, got)
    {
      full := full + 1;
      sectorCount, sectorPtr := 0, 0;
      if filelen > 512 {
        filelen := filelen - 512;
        Advance(vol, length, need, got);
      } else {
        filelen := 0;
      }
    }

    method Commit(vol: Volume, ghost length: nat, ghost need: nat, ghost got: seq<Byte>)
      requires Ready(vol, length, need)
      requires 512 * file.sector + 512 <= |got|
      requires vol.sectorBuffer[..] == got[512 * file.sector..512 * file.sector + 512]
      requires Holds(vol.g, vol.disk, chain, got, file.sector)
      modifies vol`disk
      ensures Ready(vol, length, need) && Holds(vol.g, vol.disk, chain, got, file.sector + 1)
    {
      HoldsWritten(vol.g, vol.T(), vol.disk, chain, got, file.sector);
      WriteDisturbsNothing(vol.g, aside, vol.T(), vol.disk, chain, file.clusterChange, file.sector,
        vol.sectorBuffer[..]);
      vol.FileWrite(file, vol.sectorBuffer, chain);
    }

    /** FileNextSectorExpand while the announced length is not reached. */
    method Advance(vol: Volume, ghost length: nat, ghost need: nat, ghost got: seq<Byte>)
      requires Ready(vol, length, need)
      requires file.sector + 1 < SectorsFor(length) && Holds(vol.g, vol.disk, chain, got, file.sector + 1)
      modifies this`chain, file`sector, file`cluster, file`clusterChange
      modifies vol`bufferedFatIndex, vol`disk, vol.fatBuffer
      ensures Ready(vol, length, need) && file.sector == old(file.sector) + 1
      ensures Holds(vol.g, vol.disk, chain, got, file.sector)
    {
      RoomForOneMore(vol.g, vol.T(), chain, length, need, file.sector);
      ghost var t, c := vol.T(), chain;
      ghost var grew := Expand(vol);
      GrowthKeepsBudget(vol.g, t, vol.T(), c, chain, grew, length, need);
      HoldsAfterGrowth(vol.g, t, old(vol.disk), vol.disk, c, chain, got, file.sector);
      GrowthDisturbsNothing(vol.g, aside, t, old(vol.disk), vol.T(), vol.disk, c, chain, grew, old(file.clusterChange));
    }

    /** The call of FileNextSectorExpand, on a volume with room. */
    method Expand(vol: Volume) returns (ghost grew: bool)
      requires vol.Valid() && vol.Owns(chain) && file.At(vol.g, chain)
      requires file.sector + 1 == Capacity(vol.g, chain) ==> HasFree(vol.g.shape, vol.T())
      modifies this`chain, file`sector, file`cluster, file`clusterChange
      modifies vol`bufferedFatIndex, vol`disk, vol.fatBuffer
      ensures vol.Valid() && vol.Owns(chain) && file.At(vol.g, chain) && file.sector == old(file.sector) + 1
      ensures file.clusterChange == old(file.clusterChange) + if grew then 1 else 0
      ensures OnlyFatChanged(vol.g, old(vol.disk), vol.disk)
      ensures Grew(vol.g, old(vol.T()), vol.T(), old(chain), chain, grew)
    {
      ghost var c, t := chain, vol.T();
      ghost var ok;
      ok, chain := vol.FileNextSectorExpand(file, c);
      grew := file.sector == Capacity(vol.g, c);
      ChangeOfGrowth(vol.g, t, c, file.cluster, grew);
    }

    /** The return key after a complete name and length: the file is created or reused. */
    method Begin(vol: Volume, name: seq<Byte>, length: nat, ghost rc: Chain, ghost lbas: seq<nat>, ghost c: Chain,
                 ghost need: nat) returns (ok: bool, ghost e: nat)
      requires vol.Valid() && D.Openable(name) && 0 < length < WORD && D.Listing(vol.g, vol.T(), rc, lbas)
      requires D.ChainOfName(vol.g, vol.disk, lbas, name, c) && vol.infoSector < vol.g.fatStart
      requires Room(vol.g, vol.disk, lbas, name, c, length, need)
      modifies this, file, vol`bufferedFatIndex, vol`disk, vol.fatBuffer, vol.sectorBuffer
      ensures ok && Begun(vol, length, need) && proto.state == EXP_SOH1 && proto.block == 1
      ensures replies == old(replies) && aside.before == vol.disk && aside.info == vol.infoSector && aside.mine == chain
      ensures aside.free == old(FreeTotal(vol))
      ensures Started(vol.g, old(vol.disk), aside, lbas, name, e, c, file.clusterChange, length)
    {
      ghost var a;
      ok, e, a := Announce(vol, name, length, rc, lbas, c, need);
      Start(vol, length, a.mine, a, need);
    }

    /** FileNew, on a card with room. */
    method Announce(vol: Volume, name: seq<Byte>, length: nat, ghost rc: Chain, ghost lbas: seq<nat>, ghost c: Chain,
                    ghost need: nat) returns (ok: bool, ghost e: nat, ghost a: Aside)
      requires vol.Valid() && D.Openable(name) && 0 < length < WORD && D.Listing(vol.g, vol.T(), rc, lbas)
      requires D.ChainOfName(vol.g, vol.disk, lbas, name, c) && vol.infoSector < vol.g.fatStart
      requires Room(vol.g, vol.disk, lbas, name, c, length, need)
      modifies file, vol`bufferedFatIndex, vol`disk, vol.fatBuffer, vol.sectorBuffer
      ensures ok && vol.Valid() && a == Aside(vol.disk, a.mine, vol.infoSector, old(FreeTotal(vol)))
      ensures vol.Owns(a.mine) && file.At(vol.g, a.mine) && file.sector == 0
      ensures Started(vol.g, old(vol.disk), a, lbas, name, e, c, file.clusterChange, length)
      ensures Budget(vol.g, vol.T(), a.mine, length, need)
      ensures Undisturbed(vol.g, a, vol.T(), vol.disk, a.mine, file.clusterChange)
    {
      ghost var c', t, existed := c, vol.T(), D.Exists(vol.disk, lbas, name);
      RoomMeans(vol.g, vol.disk, lbas, name, c, length, need);
      ok, e, c' := D.FileNew(vol, file, name, length, rc, lbas, c);
      a := Aside(vol.disk, c', vol.infoSector, FreeCount(t, vol.g.shape.clusterLimit));
      StartBudget(vol.g, t, vol.T(), vol.disk, existed, c, c', file.clusterChange, a, length, need);
    }

    method Start(vol: Volume, length: nat, ghost c: Chain, ghost a: Aside, ghost need: nat)
      requires vol.Valid() && vol.Owns(c) && file.At(vol.g, c) && file.sector == 0 && a.info == vol.infoSector
      requires 0 < length && Budget(vol.g, vol.T(), c, length, need)
      requires Undisturbed(vol.g, a, vol.T(), vol.disk, c, file.clusterChange)
      modifies this`proto, this`filelen, this`sectorPtr, this`sectorCount, this`chain, this`full, this`aside
      ensures Begun(vol, length, need) && proto == Proto(EXP_SOH1, 1, old(proto).chk, 0) && aside == a && chain == c
    {
      Reset(length, c, a);
    }

    method Reset(length: nat, ghost c: Chain, ghost a: Aside)
      modifies this`proto, this`filelen, this`sectorPtr, this`sectorCount, this`chain, this`full, this`aside
      ensures filelen == length && sectorPtr == sectorCount == 0 && proto == Proto(EXP_SOH1, 1, old(proto).chk, 0)
      ensures chain == c && full == 0 && aside == a
    {
      filelen, sectorPtr, sectorCount := length, 0, 0;
      proto := Proto(EXP_SOH1, 1, proto.chk, 0);
      chain, full, aside := c, 0, a;
    }

    /** xmodem_rx_byte while a file is being received. */
    method RxByte(vol: Volume, byte: Byte, ghost length: nat, ghost need: nat, ghost got: seq<Byte>)
      requires Holding(vol, length, need, got)
      requires Next(proto, byte).1.Take? ==> filelen > 0
      requires Next(proto, byte).1.Finish? ==> 0 < length <= |got|
      modifies this`proto, this`filelen, this`sectorPtr, this`sectorCount, this`replies, this`chain, this`full
      modifies file`sector, file`cluster, file`clusterChange
      modifies vol, vol.fatBuffer, vol.sectorBuffer
      ensures proto == Next(old(proto), byte).0
      ensures var e := Next(old(proto), byte).1;
              && replies == old(replies) + (if e.Answer? then [e.reply] else if e.Finish? then [ACK] else [])
              && if e.Finish? then Uploaded(vol.g, aside, vol.T(), vol.disk, chain, got, length)
                 else Holding(vol, length, need, if e.Take? then got + [e.byte] else got)
      ensures Next(old(proto), byte).1.Finish? ==> chain[0] == file.startCluster
    {
      var (q, e) := Next(proto, byte);
      match e
      case Nothing =>
        proto := q;
      case Answer(r) =>
        proto, replies := q, replies + [r];
      case Take(b) =>
        proto := q;
        StoreByte(vol, b, length, need, got);
      case Finish =>
        proto, replies := q, replies + [ACK];
        FinishFile(vol, length, need, got);
    }

    /** While bytes of the padded file are missing, the announced length is not used up. */
    lemma MoreExpected(vol: Volume, data: seq<Byte>, length: nat, need: nat, got: seq<Byte>)
      requires PaddedTo(data, length) && Holding(vol, length, need, got) && |got| < |data|
      ensures filelen > 0
    {
      PaddingIsShort(data, length, full);
    }

    /** A byte of a sender that has not yet sent all of `data`. */
    method RxMore(vol: Volume, byte: Byte, ghost data: seq<Byte>, ghost length: nat, ghost need: nat,
                  ghost got: seq<Byte>)
      requires PaddedTo(data, length) && Holding(vol, length, need, got)
      requires !Next(proto, byte).1.Finish? && (Next(proto, byte).1.Take? ==> |got| < |data|)
      modifies this`proto, this`filelen, this`sectorPtr, this`sectorCount, this`replies, this`chain, this`full
      modifies file`sector, file`cluster, file`clusterChange
      modifies vol, vol.fatBuffer, vol.sectorBuffer
      ensures proto == Next(old(proto), byte).0
      ensures var e := Next(old(proto), byte).1;
              && replies == old(replies) + (if e.Answer? then [e.reply] else [])
              && Holding(vol, length, need, if e.Take? then got + [e.byte] else got)
    {
      ghost var e := Next(proto, byte).1;
      if e.Take? {
        MoreExpected(vol, data, length, need, got);
      }
      RxByte(vol, byte, length, need, got);
    }

    /** EOT: write a partly filled sector, end the chain, report to FSInfo. */
    method FinishFile(vol: Volume, ghost length: nat, ghost need: nat, ghost got: seq<Byte>)
      requires Holding(vol, length, need, got) && 0 < length <= |got|
      modifies this`chain, file`cluster, file`clusterChange
      modifies vol, vol.fatBuffer, vol.sectorBuffer
      ensures Uploaded(vol.g, aside, vol.T(), vol.disk, chain, got, length)
      ensures vol.Valid() && chain[0] == file.startCluster
    {
      if sectorCount != 0 {
        WritePartial(vol, length, need, got);
      } else {
        BytesOfSectors(vol.g, vol.disk, chain, got, full, length);
      }
      CloseFile(vol, length, need, got);
    }

    method CloseFile(vol: Volume, ghost length: nat, ghost need: nat, ghost got: seq<Byte>)
      requires Ready(vol, length, need) && HasBytes(vol.g, vol.disk, chain, got, length)
      requires 0 < length && file.sector == (length - 1) / 512
      modifies this`chain, file`cluster, file`clusterChange
      modifies vol, vol.fatBuffer, vol.sectorBuffer
      ensures Uploaded(vol.g, aside, vol.T(), vol.disk, chain, got, length)
      ensures vol.Valid() && chain[0] == file.startCluster
    {
      ghost var t, d, c, pos := vol.T(), vol.disk, chain, file.sector / vol.g.clusterSize;
      vol.FileWriteEnd(file, c);
      chain := c[..pos + 1];
      CutUpload(vol.g, aside, t, d, vol.T(), vol.disk, c, pos, file.clusterChange, got, length);
      LastCluster(vol.g, length);
    }

    method WritePartial(vol: Volume, ghost length: nat, ghost need: nat, ghost got: seq<Byte>)
      requires Holding(vol, length, need, got) && 0 < length <= |got| && sectorCount != 0
      modifies vol`disk
      ensures Ready(vol, length, need) && HasBytes(vol.g, vol.disk, chain, got, length)
    {
      PartialSector(vol.g, vol.T(), vol.disk, chain, got, full, vol.sectorBuffer[..], length);
      WriteDisturbsNothing(vol.g, aside, vol.T(), vol.disk, chain, file.clusterChange, file.sector,
        vol.sectorBuffer[..]);
      vol.FileWrite(file, vol.sectorBuffer, chain);
    }
  }

  // ---------- the finished upload ----------

  /** The outcome of an upload of `length` bytes: contents, exact chain length, an exact free count
      if FSInfo had one, and everything else on the card undisturbed. */
  ghost predicate Uploaded(g: Geometry, a: Aside, t: Table, d: Disk, c: Chain, data: seq<Byte>, length: nat)
  {
    && g.Valid() && |t| == g.Entries() && IsChain(g.shape, t, c)
    && HasBytes(g, d, c, data, length) && |c| == ClustersFor(g, length)
    && OthersKept(g, a, t, d, c)
    && (InfoValid(a.info, a.before) && Le32(Rd(a.before, a.info), FREE_COUNT) == a.free ==>
          Le32(Rd(d, a.info), FREE_COUNT) == FreeCount(t, g.shape.clusterLimit))
  }

  lemma BytesOfSectors(g: Geometry, d: Disk, c: Chain, got: seq<Byte>, n: nat, length: nat)
    requires g.clusterSize > 0 && Holds(g, d, c, got, n) && length <= 512 * n
    ensures HasBytes(g, d, c, got, length)
  {
    forall b | 0 <= b < length
      ensures b / 512 / g.clusterSize < |c| && FileSector(g, d, c, b / 512)[b % 512] == got[b]
    {
      var k := b / 512;
      assert k / g.clusterSize < |c| && FileSector(g, d, c, k) == got[512 * k..512 * k + 512];
    }
  }

  lemma PartialSector(g: Geometry, t: Table, d: Disk, c: Chain, got: seq<Byte>, n: nat, s: Sector, length: nat)
    requires g.Valid() && g.shape.clusterLimit <= |t| && IsChain(g.shape, t, c) && n / g.clusterSize < |c|
    requires Holds(g, d, c, got, n) && 512 * n < |got| < 512 * n + 512 && length <= |got|
    requires s[..|got| - 512 * n] == got[512 * n..]
    ensures HasBytes(g, d[FileLba(g, c, n) := s], c, got, length)
  {
    var d' := d[FileLba(g, c, n) := s];
    forall b | 0 <= b < length
      ensures b / 512 / g.clusterSize < |c| && FileSector(g, d', c, b / 512)[b % 512] == got[b]
    {
      var k := b / 512;
      if k < n {
        assert k / g.clusterSize < |c| && FileSector(g, d, c, k) == got[512 * k..512 * k + 512];
      } else {
        assert k == n && s[b - 512 * n] == s[..|got| - 512 * n][b - 512 * n];
      }
      WriteIsLocal(g, t, d, c, n, s, c, k);
    }
  }

  /** The cluster of the last sector is the last cluster of the file. */
  lemma LastCluster(g: Geometry, length: nat)
    requires g.Valid() && length > 0
    ensures (length - 1) / 512 / g.clusterSize + 1 == ClustersFor(g, length)
  {
    var n := SectorsFor(length) - 1;
    assert n == (length - 1) / 512;
    DivModUnique(n + g.clusterSize, g.clusterSize, n / g.clusterSize + 1, n % g.clusterSize);
  }

  /** The chain got the lowest free cluster at its end, or nothing happened. */
  ghost predicate Grew(g: Geometry, t: Table, t': Table, c: Chain, c': Chain, grew: bool)
    requires g.Valid() && |t| == |t'| == g.Entries()
  {
    if grew then
      |c| > 0 && c[|c| - 1] < |t| && LowestFree(t, 2) < g.shape.clusterLimit
      && c' == c + [LowestFree(t, 2)] && t' == AppendTable(g.shape, t, c[|c| - 1], LowestFree(t, 2))
    else t' == t && c' == c
  }

  /** The handle's cluster is a new one exactly when the chain grew. */
  lemma ChangeOfGrowth(g: Geometry, t: Table, c: Chain, cluster: nat, grew: bool)
    requires g.Valid() && |t| == g.Entries() && IsChain(g.shape, t, c)
    requires if grew then cluster == LowestFree(t, 2) < g.shape.clusterLimit else cluster in c
    ensures cluster != 0 && (cluster in c <==> !grew)
  {
    if grew { FreshIsUnowned(g.shape, t, c, cluster); }
  }

  lemma WriteDisturbsNothing(g: Geometry, a: Aside, t: Table, d: Disk, c: Chain, change: int, n: nat, s: Sector)
    requires g.Valid() && |t| == g.Entries() && IsChain(g.shape, t, c) && n / g.clusterSize < |c|
    requires Undisturbed(g, a, t, d, c, change)
    ensures Undisturbed(g, a, t, d[FileLba(g, c, n) := s], c, change)
  {
    FileOutsideSystem(g, t, c, n, a.info);
    LbaInData(g, c[n / g.clusterSize], n);
    forall k: nat {:trigger Elsewhere(g, a, k)} | Elsewhere(g, a, k)
      ensures ClusterKept(g, a, t, d[FileLba(g, c, n) := s], c, k)
    {
      WriteKeepsCluster(g, a, t, d, c, n, s, k);
    }
  }

  lemma WriteKeepsCluster(g: Geometry, a: Aside, t: Table, d: Disk, c: Chain, n: nat, s: Sector, k: nat)
    requires g.Valid() && |t| == g.Entries() && IsChain(g.shape, t, c) && n / g.clusterSize < |c|
    requires 2 <= k < g.shape.clusterLimit && ClusterKept(g, a, t, d, c, k)
    ensures ClusterKept(g, a, t, d[FileLba(g, c, n) := s], c, k)
  {
    var mine := c[n / g.clusterSize];
    assert mine in c;
    LbaInData(g, mine, n);
    var off := FileLba(g, c, n) - ClusterStart(g, k);
    if 0 <= off < g.clusterSize {
      DivModUnique(g.clusterSize * (k - 2) + off, g.clusterSize, k - 2, off);
      DivModUnique(g.clusterSize * (k - 2) + off, g.clusterSize, mine - 2, n % g.clusterSize);
    }
  }

  lemma GrowthDisturbsNothing(g: Geometry, a: Aside, t: Table, d: Disk, t': Table, d': Disk, c: Chain, c': Chain,
                              grew: bool, change: int)
    requires g.Valid() && |t| == |t'| == g.Entries() && IsChain(g.shape, t, c) && Undisturbed(g, a, t, d, c, change)
    requires OnlyFatChanged(g, d, d')
    requires Grew(g, t, t', c, c', grew)
    ensures Undisturbed(g, a, t', d', c', if grew then change + 1 else change)
  {
    if grew { AppendCosts(g.shape, t, c, LowestFree(t, 2)); }
    forall k: nat {:trigger Elsewhere(g, a, k)} | Elsewhere(g, a, k)
      ensures ClusterKept(g, a, t', d', c', k)
    {
      assert ClusterKept(g, a, t, d, c, k);
      if grew { assert c[|c| - 1] in c && k != LowestFree(t, 2); }
      TableUpdateKeepsCluster(g, a.before, d, d', k);
    }
  }

  /** Sectors of the data area survive a table update. */
  lemma TableUpdateKeepsCluster(g: Geometry, d0: Disk, d: Disk, d': Disk, k: nat)
    requires g.Valid() && k >= 2 && OnlyFatChanged(g, d, d') && SectorsKept(g, d0, d, k)
    ensures SectorsKept(g, d0, d', k)
  {
    MulMonotone(g.clusterSize, 0, k - 2);
  }

  lemma GrowthKeepsBudget(g: Geometry, t: Table, t': Table, c: Chain, c': Chain, grew: bool, length: nat, need: nat)
    requires g.Valid() && |t| == |t'| == g.Entries() && IsChain(g.shape, t, c) && Budget(g, t, c, length, need)
    requires Grew(g, t, t', c, c', grew)
    ensures Budget(g, t', c', length, need)
  {
    if grew { AppendCosts(g.shape, t, c, LowestFree(t, 2)); }
  }

  // ---------- lemmas about the stored part ----------

  lemma HoldsMore(g: Geometry, d: Disk, c: Chain, got: seq<Byte>, b: Byte, n: nat)
    requires g.clusterSize > 0 && Holds(g, d, c, got, n)
    ensures Holds(g, d, c, got + [b], n)
  {
    forall k | 0 <= k < n
      ensures k / g.clusterSize < |c| && FileSector(g, d, c, k) == (got + [b])[512 * k..512 * k + 512]
    {
      assert (got + [b])[512 * k..512 * k + 512] == got[512 * k..512 * k + 512];
    }
  }

  lemma HoldsWritten(g: Geometry, t: Table, d: Disk, c: Chain, got: seq<Byte>, n: nat)
    requires g.Valid() && g.shape.clusterLimit <= |t| && IsChain(g.shape, t, c)
    requires n / g.clusterSize < |c| && 512 * n + 512 <= |got| && Holds(g, d, c, got, n)
    ensures Holds(g, d[FileLba(g, c, n) := got[512 * n..512 * n + 512]], c, got, n + 1)
  {
    forall k | 0 <= k < n + 1
      ensures k / g.clusterSize < |c|
      ensures FileSector(g, d[FileLba(g, c, n) := got[512 * n..512 * n + 512]], c, k) == got[512 * k..512 * k + 512]
    {
      assert k < n ==> k / g.clusterSize < |c|;
      WriteIsLocal(g, t, d, c, n, got[512 * n..512 * n + 512], c, k);
    }
  }

  lemma HoldsAfterGrowth(g: Geometry, t: Table, d: Disk, d': Disk, c: Chain, c': Chain, got: seq<Byte>, n: nat)
    requires g.Valid() && g.shape.clusterLimit <= |t| && IsChain(g.shape, t, c)
    requires OnlyFatChanged(g, d, d') && c <= c' && Holds(g, d, c, got, n)
    ensures Holds(g, d', c', got, n)
  {
    forall k | 0 <= k < n
      ensures k / g.clusterSize < |c'| && FileSector(g, d', c', k) == got[512 * k..512 * k + 512]
    {
      assert k / g.clusterSize < |c|;
      FatUpdateKeepsSectors(g, t, d, d', c, k);
      assert FileLba(g, c', k) == FileLba(g, c, k);
    }
  }

  /** While sectors are missing and the chain is full, the promised cluster is still free. */
  lemma RoomForOneMore(g: Geometry, t: Table, c: Chain, length: nat, need: nat, n: nat)
    requires g.Valid() && |t| == g.Entries() && n + 1 < SectorsFor(length) && Budget(g, t, c, length, need)
    ensures n + 1 == Capacity(g, c) ==> LowestFree(t, 2) < g.shape.clusterLimit
  {
    if n + 1 == Capacity(g, c) {
      if need <= |c| { MulMonotone(g.clusterSize, need, |c|); }
      FreeCountFindsOne(t, g.shape.clusterLimit);
    }
  }

  /** Truncating keeps the bytes, settles the free count and leaves the others alone. */
  lemma CutUpload(g: Geometry, a: Aside, t: Table, d: Disk, t': Table, d': Disk, c: Chain, pos: nat, change: int,
                  got: seq<Byte>, length: nat)
    requires g.Valid() && |t| == |t'| == g.Entries() && IsChain(g.shape, t, c) && pos < |c|
    requires Undisturbed(g, a, t, d, c, change + (|c| - pos - 1))
    requires t' == CutTable(g.shape, t, c, pos) && OnlyFatChanged(g, InfoWritten(a.info, d, change), d')
    requires HasBytes(g, d, c, got, length) && 0 < length && (length - 1) / 512 / g.clusterSize == pos
    ensures IsChain(g.shape, t', c[..pos + 1]) && HasBytes(g, d', c[..pos + 1], got, length)
    ensures OthersKept(g, a, t', d', c[..pos + 1])
    ensures InfoValid(a.info, a.before) && Le32(Rd(a.before, a.info), FREE_COUNT) == a.free ==>
              Le32(Rd(d', a.info), FREE_COUNT) == FreeCount(t', g.shape.clusterLimit)
  {
    CutShortensChain(g.shape, t, c, pos);
    CutFrees(g.shape, t, c, pos);
    CutKeepsBytes(g, t, d, d', a.info, c, pos, change, got, length);
    CutKeepsOthers(g, a, t, d, t', d', c, pos, change);
    if InfoValid(a.info, a.before) && Le32(Rd(a.before, a.info), FREE_COUNT) == a.free {
      InfoExact(a.info, d, change, FreeCount(t', g.shape.clusterLimit));
    }
  }

  lemma CutKeepsBytes(g: Geometry, t: Table, d: Disk, d': Disk, info: nat, c: Chain, pos: nat, change: int,
                      got: seq<Byte>, length: nat)
    requires g.Valid() && |t| == g.Entries() && IsChain(g.shape, t, c) && pos < |c| && info < g.fatStart
    requires OnlyFatChanged(g, InfoWritten(info, d, change), d')
    requires HasBytes(g, d, c, got, length) && 0 < length && (length - 1) / 512 / g.clusterSize == pos
    ensures HasBytes(g, d', c[..pos + 1], got, length)
  {
    forall b | 0 <= b < length
      ensures b / 512 / g.clusterSize < pos + 1
      ensures FileSector(g, d', c[..pos + 1], b / 512)[b % 512] == got[b]
    {
      DivMonotone(b / 512, (length - 1) / 512, g.clusterSize);
      SectorSurvives(g, t, d, d', info, c, change, b / 512);
    }
  }

  /** Neither the FAT nor the FSInfo sector is part of a file. */
  lemma SectorSurvives(g: Geometry, t: Table, d: Disk, d': Disk, info: nat, c: Chain, change: int, n: nat)
    requires g.Valid() && |t| == g.Entries() && IsChain(g.shape, t, c) && info < g.fatStart
    requires OnlyFatChanged(g, InfoWritten(info, d, change), d') && n / g.clusterSize < |c|
    ensures FileSector(g, d', c, n) == FileSector(g, d, c, n)
  {
    FileOutsideSystem(g, t, c, n, info);
    InfoWrittenElsewhere(info, d, change, FileLba(g, c, n));
  }

  lemma CutKeepsOthers(g: Geometry, a: Aside, t: Table, d: Disk, t': Table, d': Disk, c: Chain, pos: nat, change: int)
    requires g.Valid() && |t| == |t'| == g.Entries() && IsChain(g.shape, t, c) && pos < |c| && a.info < g.fatStart
    requires OthersKept(g, a, t, d, c)
    requires t' == CutTable(g.shape, t, c, pos) && OnlyFatChanged(g, InfoWritten(a.info, d, change), d')
    ensures OthersKept(g, a, t', d', c[..pos + 1])
  {
    forall lba | g.FatEnd() <= lba < g.dataStart
      ensures Rd(d', lba) == Rd(a.before, lba)
    {
      InfoWrittenElsewhere(a.info, d, change, lba);
    }
    forall k: nat {:trigger Elsewhere(g, a, k)} | Elsewhere(g, a, k)
      ensures ClusterKept(g, a, t', d', c[..pos + 1], k)
    {
      assert ClusterKept(g, a, t, d, c, k);
      assert t'[k] == CutEntry(g.shape, t, c, pos, k) == t[k];
      InfoKeepsCluster(g, a, d, d', change, k);
    }
  }

  lemma InfoKeepsCluster(g: Geometry, a: Aside, d: Disk, d': Disk, change: int, k: nat)
    requires g.Valid() && a.info < g.fatStart && k >= 2 && SectorsKept(g, a.before, d, k)
    requires OnlyFatChanged(g, InfoWritten(a.info, d, change), d')
    ensures SectorsKept(g, a.before, d', k)
  {
    MulMonotone(g.clusterSize, 0, k - 2);
    forall lba | ClusterStart(g, k) <= lba < ClusterStart(g, k) + g.clusterSize
      ensures Rd(d', lba) == Rd(a.before, lba)
    {
      InfoWrittenElsewhere(a.info, d, change, lba);
    }
  }

  /** The card has room for the upload: an existing file keeps its clusters, a new one needs a
      directory slot as well. */
  ghost predicate Room(g: Geometry, d: Disk, lbas: seq<nat>, name: seq<Byte>, c: Chain, length: nat, need: nat)
    requires g.Valid() && D.Openable(name)
  {
    var free, existed := FreeCount(TableOf(g, d), g.shape.clusterLimit), D.Exists(d, lbas, name);
    && SectorsFor(length) <= g.clusterSize * need && need == free + (if existed then |c| else 0)
    && (!existed ==> !D.NoneBelow(d, lbas, D.Empty, D.Slots(lbas)))
  }

  lemma RoomMeans(g: Geometry, d: Disk, lbas: seq<nat>, name: seq<Byte>, c: Chain, length: nat, need: nat)
    requires g.Valid() && D.Openable(name) && Room(g, d, lbas, name, c, length, need) && length > 0
    ensures D.Exists(d, lbas, name) || HasFree(g.shape, TableOf(g, d))
  {
    if need == 0 { MulMonotone(g.clusterSize, need, 0); }
    FreeCountFindsOne(TableOf(g, d), g.shape.clusterLimit);
  }

  /** FileNew leaves enough free clusters, counts what it took, and takes them from nobody. */
  lemma StartBudget(g: Geometry, t: Table, t': Table, d: Disk, existed: bool, c: Chain, c': Chain, change: int,
                    a: Aside, length: nat, need: nat)
    requires g.Valid() && |t| == |t'| == g.Entries() && t' == TableOf(g, d)
    requires D.Reused(g.shape, t, t', existed, c, c', change) && (existed || HasFree(g.shape, t))
    requires SectorsFor(length) <= g.clusterSize * need
    requires need == FreeCount(t, g.shape.clusterLimit) + if existed then |c| else 0
    requires a == Aside(d, c', a.info, FreeCount(t, g.shape.clusterLimit)) && a.info < g.fatStart
    ensures Budget(g, t', c', length, need) && Undisturbed(g, a, t', d, c', change)
  {
    if !existed { FreeCountUpdate(t, g.shape.clusterLimit, LowestFree(t, 2), g.shape.Eoc()); }
    forall k: nat {:trigger Elsewhere(g, a, k)} | Elsewhere(g, a, k)
      ensures ClusterKept(g, a, t', d, c', k)
    {
    }
  }

  // ---------- what the others see ----------

  /** Every chain that was on the card apart from the file's is still there, with its sectors. */
  lemma ChainKept(g: Geometry, a: Aside, t: Table, d: Disk, c: Chain, f: Chain)
    requires g.Valid() && |t| == g.Entries() && OthersKept(g, a, t, d, c)
    requires IsChain(g.shape, TableOf(g, a.before), f) && Disjoint(f, a.mine)
    ensures IsChain(g.shape, t, f) && Disjoint(f, c)
    ensures forall m {:trigger FileSector(g, d, f, m)} :: 0 <= m && m / g.clusterSize < |f| ==>
              FileSector(g, d, f, m) == FileSector(g, a.before, f, m)
  {
    var t0 := TableOf(g, a.before);
    forall x | x in f
      ensures t[x] == t0[x] && x !in c
    {
      ChainEntriesUsed(g.shape, t0, f, x);
      assert Elsewhere(g, a, x);
    }
    ChainFrame(g.shape, t0, t, f);
    forall m {:trigger FileSector(g, d, f, m)} | 0 <= m && m / g.clusterSize < |f|
      ensures FileSector(g, d, f, m) == FileSector(g, a.before, f, m)
    {
      var x := f[m / g.clusterSize];
      ChainEntriesUsed(g.shape, t0, f, x);
      assert Elsewhere(g, a, x) && SectorsKept(g, a.before, d, x);
      LbaInData(g, x, m);
    }
  }

  /** The directory is where it was, slot by slot. */
  lemma DirectoryKept(g: Geometry, a: Aside, t: Table, d: Disk, c: Chain, rc: Chain, lbas: seq<nat>)
    requires g.Valid() && |t| == g.Entries() && OthersKept(g, a, t, d, c)
    requires D.Listing(g, TableOf(g, a.before), rc, lbas) && (g.shape.fat32 ==> Disjoint(rc, a.mine))
    ensures D.Listing(g, t, rc, lbas)
    ensures forall e :: 0 <= e < D.Slots(lbas) ==> D.SlotOf(d, lbas, e) == D.SlotOf(a.before, lbas, e)
  {
    if g.shape.fat32 { ChainKept(g, a, t, d, c, rc); }
    forall k | 0 <= k < |lbas|
      ensures Rd(d, lbas[k]) == Rd(a.before, lbas[k])
    {
      if g.shape.fat32 {
        assert D.ListedAt(g, rc, lbas, k);
        assert FileSector(g, d, rc, k) == FileSector(g, a.before, rc, k);
      }
    }
  }

  // ---------- end to end ----------

  predicate PaddedTo(data: seq<Byte>, length: nat) {
    0 < length && |data| == (length + BLOCK_BYTES - 1) / BLOCK_BYTES * BLOCK_BYTES
  }

  /** An error-free sender of `length` bytes, padded to blocks: every block and the EOT are
      acknowledged, and the upload is complete. */
  method Upload(rx: Receiver, vol: Volume, data: seq<Byte>, length: nat, ghost need: nat)
    requires PaddedTo(data, length) && rx.Begun(vol, length, need)
    requires rx.proto.state == EXP_SOH1 && rx.proto.block == 1
    modifies rx`proto, rx`filelen, rx`sectorPtr, rx`sectorCount, rx`replies, rx`chain, rx`full
    modifies rx.file`sector, rx.file`cluster, rx.file`clusterChange
    modifies vol, vol.fatBuffer, vol.sectorBuffer
    ensures Uploaded(vol.g, rx.aside, vol.T(), vol.disk, rx.chain, data, length)
    ensures rx.chain[0] == rx.file.startCluster
    ensures rx.proto.state == IDLE && rx.replies == old(rx.replies) + Acks(|data| / BLOCK_BYTES + 1)
  {
    SendAll(rx, vol, data, length, need);
    rx.RxByte(vol, EOT, length, need, data);
  }

  /** All blocks of an upload. */
  method SendAll(rx: Receiver, vol: Volume, data: seq<Byte>, length: nat, ghost need: nat)
    requires PaddedTo(data, length) && rx.Begun(vol, length, need)
    requires rx.proto.state == EXP_SOH1 && rx.proto.block == 1
    modifies rx`proto, rx`filelen, rx`sectorPtr, rx`sectorCount, rx`replies, rx`chain, rx`full
    modifies rx.file`sector, rx.file`cluster, rx.file`clusterChange
    modifies vol, vol.fatBuffer, vol.sectorBuffer
    ensures rx.Holding(vol, length, need, data) && 0 < length <= |data|
    ensures AwaitsHeader(rx.proto) && rx.replies == old(rx.replies) + Acks(|data| / BLOCK_BYTES)
  {
    PaddedBlocks(data, length);
    StartsFollowing(data, rx.proto);
    ScriptEnds(data, rx.proto, Script(data));
    SendFrames(rx, vol, Script(data), data, length, need);
  }

  /** Slot e is the file called `name`, of `length` bytes, which are the first ones of `data`. */
  ghost predicate Stands(g: Geometry, d: Disk, lbas: seq<nat>, name: seq<Byte>, e: nat, c: Chain, data: seq<Byte>,
                         length: nat)
    requires g.Valid() && |name| == D.NAME_BYTES
  {
    && D.Names(d, lbas, name, e) && D.FileSize(D.SlotOf(d, lbas, e)) == length
    && IsChain(g.shape, TableOf(g, d), c) && c[0] == D.StartCluster(g, D.SlotOf(d, lbas, e))
    && HasBytes(g, d, c, data, length) && |c| == ClustersFor(g, length)
  }

  /** Every other chain on the card is still there, with its sectors. */
  ghost predicate FilesKept(g: Geometry, d: Disk, d': Disk, rc: Chain, mine: Chain)
    requires g.Valid()
  {
    forall f: Chain {:trigger FileKept(g, d, d', f)} ::
      IsChain(g.shape, TableOf(g, d), f) && Disjoint(f, mine) && (g.shape.fat32 ==> Disjoint(rc, f)) ==>
        FileKept(g, d, d', f)
  }

  ghost predicate FileKept(g: Geometry, d: Disk, d': Disk, f: Chain)
    requires g.Valid()
  {
    && IsChain(g.shape, TableOf(g, d'), f)
    && forall m {:trigger FileSector(g, d', f, m)} :: 0 <= m && m / g.clusterSize < |f| ==>
         FileSector(g, d', f, m) == FileSector(g, d, f, m)
  }

  /** FileNew succeeded on card d: slot e is the file's, and its chain was kept or newly allocated. */
  ghost predicate Started(g: Geometry, d: Disk, a: Aside, lbas: seq<nat>, name: seq<Byte>, e: nat, c: Chain,
                          change: int, length: nat)
    requires g.Valid() && D.Openable(name)
  {
    && D.Reused(g.shape, TableOf(g, d), TableOf(g, a.before), D.Exists(d, lbas, name), c, a.mine, change)
    && D.Names(a.before, lbas, name, e) && D.Stored(g, d, a.before, lbas, e, D.SlotOf(a.before, lbas, e))
    && |a.mine| > 0 && D.StartCluster(g, D.SlotOf(a.before, lbas, e)) == a.mine[0]
    && D.FileSize(D.SlotOf(a.before, lbas, e)) == length
  }

  /** No slot but e changed. */
  ghost predicate SlotsKept(d: Disk, d': Disk, lbas: seq<nat>, e: nat) {
    forall k :: 0 <= k < D.Slots(lbas) && k != e ==> D.SlotOf(d', lbas, k) == D.SlotOf(d, lbas, k)
  }

  /** The whole transfer, from the file name to EOT, for a new file or one that exists.  The directory
      names the file's chain, the chain holds the bytes, and nothing else on the card is lost. */
  method Transfer(rx: Receiver, vol: Volume, name: seq<Byte>, data: seq<Byte>, length: nat, ghost rc: Chain,
                  ghost lbas: seq<nat>, ghost c: Chain, ghost need: nat) returns (ghost e: nat)
    requires vol.Valid() && D.Openable(name) && length < WORD && PaddedTo(data, length)
    requires D.Listing(vol.g, vol.T(), rc, lbas) && D.ChainOfName(vol.g, vol.disk, lbas, name, c)
    requires Room(vol.g, vol.disk, lbas, name, c, length, need) && vol.infoSector < vol.g.fatStart
    requires vol.g.shape.fat32 && D.Exists(vol.disk, lbas, name) ==> Disjoint(rc, c)
    modifies rx, rx.file, vol, vol.fatBuffer, vol.sectorBuffer
    ensures vol.g.Valid() && D.Listing(vol.g, vol.T(), rc, lbas)
    ensures Stands(vol.g, vol.disk, lbas, name, e, rx.chain, data, length)
    ensures SlotsKept(old(vol.disk), vol.disk, lbas, e)
    ensures FilesKept(vol.g, old(vol.disk), vol.disk, rc, if D.Exists(old(vol.disk), lbas, name) then c else [])
    ensures var info := old(vol.infoSector);
            InfoValid(info, old(vol.disk)) && Le32(Rd(old(vol.disk), info), FREE_COUNT) == old(FreeTotal(vol)) ==>
              Le32(Rd(vol.disk, info), FREE_COUNT) == FreeTotal(vol)
    ensures rx.proto.state == IDLE && rx.replies == old(rx.replies) + Acks(|data| / BLOCK_BYTES + 1)
  {
    var ok;
    ok, e := rx.Begin(vol, name, length, rc, lbas, c, need);
    ghost var change := rx.file.clusterChange;
    Upload(rx, vol, data, length, need);
    Finished(vol.g, old(vol.disk), vol.disk, rx.aside, rc, lbas, name, e, c, change, rx.chain, data, length);
  }

  /** What the end of the upload says about the card before it. */
  lemma Finished(g: Geometry, d: Disk, d': Disk, a: Aside, rc: Chain, lbas: seq<nat>, name: seq<Byte>, e: nat,
                 c: Chain, change: int, c': Chain, data: seq<Byte>, length: nat)
    requires g.Valid() && D.Openable(name) && D.Listing(g, TableOf(g, d), rc, lbas) && a.info < g.fatStart
    requires g.shape.fat32 && D.Exists(d, lbas, name) ==> Disjoint(rc, c)
    requires Started(g, d, a, lbas, name, e, c, change, length)
    requires Uploaded(g, a, TableOf(g, d'), d', c', data, length) && c'[0] == a.mine[0]
    ensures D.Listing(g, TableOf(g, d'), rc, lbas) && Stands(g, d', lbas, name, e, c', data, length)
    ensures SlotsKept(d, d', lbas, e)
    ensures FilesKept(g, d, d', rc, if D.Exists(d, lbas, name) then c else [])
    ensures InfoValid(a.info, a.before) == InfoValid(a.info, d)
    ensures Le32(Rd(a.before, a.info), FREE_COUNT) == Le32(Rd(d, a.info), FREE_COUNT)
  {
    var t, t' := TableOf(g, d), TableOf(g, d');
    var mine := if D.Exists(d, lbas, name) then c else [];
    D.StoredKeepsBoot(g, t, rc, lbas, d, a.before, e, D.SlotOf(a.before, lbas, e));
    SameInfo(g, d, a.before, a.info);
    ListingReused(g, d, a, rc, lbas, name, c, change);
    DirectoryKept(g, a, t', d', c', rc, lbas);
    NamesKept(a.before, d', lbas, name, e);
    forall f: Chain {:trigger FileKept(g, d, d', f)}
      | IsChain(g.shape, t, f) && Disjoint(f, mine) && (g.shape.fat32 ==> Disjoint(rc, f))
      ensures FileKept(g, d, d', f)
    {
      ChainReused(g.shape, t, TableOf(g, a.before), D.Exists(d, lbas, name), c, a.mine, change, f);
      ChainKept(g, a, t', d', c', f);
      forall m {:trigger FileSector(g, d', f, m)} | 0 <= m && m / g.clusterSize < |f|
        ensures FileSector(g, d', f, m) == FileSector(g, d, f, m)
      {
        D.StoredKeepsFiles(g, t, rc, lbas, d, a.before, e, D.SlotOf(a.before, lbas, e), f, m);
      }
    }
  }

  lemma ChainReused(g: Shape, t: Table, t': Table, existed: bool, c: Chain, c': Chain, change: int, f: Chain)
    requires g.Valid() && g.clusterLimit <= |t| == |t'| && IsChain(g, t, f) && (existed ==> Disjoint(f, c))
    requires D.Reused(g, t, t', existed, c, c', change)
    ensures IsChain(g, t', f) && Disjoint(f, c')
  {
    if !existed {
      FreshIsUnowned(g, t, f, LowestFree(t, 2));
      ChainFrame(g, t, t', f);
    }
  }

  lemma ListingReused(g: Geometry, d: Disk, a: Aside, rc: Chain, lbas: seq<nat>, name: seq<Byte>, c: Chain, change: int)
    requires g.Valid() && D.Openable(name) && D.Listing(g, TableOf(g, d), rc, lbas)
    requires g.shape.fat32 && D.Exists(d, lbas, name) ==> Disjoint(rc, c)
    requires D.Reused(g.shape, TableOf(g, d), TableOf(g, a.before), D.Exists(d, lbas, name), c, a.mine, change)
    ensures D.Listing(g, TableOf(g, a.before), rc, lbas) && (g.shape.fat32 ==> Disjoint(rc, a.mine))
  {
    if g.shape.fat32 {
      ChainReused(g.shape, TableOf(g, d), TableOf(g, a.before), D.Exists(d, lbas, name), c, a.mine, change, rc);
    }
  }

  lemma NamesKept(d: Disk, d': Disk, lbas: seq<nat>, name: seq<Byte>, e: nat)
    requires |name| == D.NAME_BYTES && D.Names(d, lbas, name, e)
    requires forall k :: 0 <= k < D.Slots(lbas) ==> D.SlotOf(d', lbas, k) == D.SlotOf(d, lbas, k)
    ensures D.Names(d', lbas, name, e)
  {
    forall k | 0 <= k < e
      ensures !D.Named(name).Accepts(D.SlotOf(d', lbas, k))
    {
      assert !D.Named(name).Accepts(D.SlotOf(d, lbas, k));
    }
  }

  lemma SameInfo(g: Geometry, d: Disk, d': Disk, info: nat)
    requires info < g.fatStart && D.BootKept(g, d, d')
    ensures InfoValid(info, d') == InfoValid(info, d) && Le32(Rd(d', info), FREE_COUNT) == Le32(Rd(d, info), FREE_COUNT)
  {
    assert Rd(d', info) == Rd(d, info);
  }

  ghost function FreeTotal(vol: Volume): nat
    requires vol.g.Valid()
    reads vol`disk
  {
    FreeCount(vol.T(), vol.g.shape.clusterLimit)
  }

  /** The frames of an upload, byte by byte. */
  method SendFrames(rx: Receiver, vol: Volume, bytes: seq<Byte>, ghost data: seq<Byte>, ghost length: nat,
                    ghost need: nat)
    requires PaddedTo(data, length) && rx.Begun(vol, length, need) && Sensible(rx.proto, bytes, |data|)
    modifies rx`proto, rx`filelen, rx`sectorPtr, rx`sectorCount, rx`replies, rx`chain, rx`full
    modifies rx.file`sector, rx.file`cluster, rx.file`clusterChange
    modifies vol, vol.fatBuffer, vol.sectorBuffer
    ensures var end := Feed(old(rx.proto), bytes, |bytes|);
            && rx.proto == end.proto && rx.Holding(vol, length, need, end.got)
            && rx.replies == old(rx.replies) + end.replies
  {
    ghost var r := rx.proto;
    ghost var f := Fed(r, [], []);
    rx.BegunHolds(vol, length, need);
    for p := 0 to |bytes|
      invariant f == Feed(r, bytes, p) && rx.proto == f.proto
      invariant rx.Holding(vol, length, need, f.got) && rx.replies == old(rx.replies) + f.replies
    {
      rx.RxMore(vol, bytes[p], data, length, need, f.got);
      f := f.Then(bytes[p]);
    }
  }

  /** The receiver after some bytes, the data bytes it took and the answers it gave. */
  datatype Fed = Fed(proto: Proto, got: seq<Byte>, replies: seq<Byte>)
  {
    function Then(byte: Byte): Fed {
      var (q, e) := Next(proto, byte);
      Fed(q, if e.Take? then got + [e.byte] else got, if e.Answer? then replies + [e.reply] else replies)
    }
  }

  /** ... after the first p bytes. */
  function Feed(r: Proto, bytes: seq<Byte>, p: nat): Fed
    requires p <= |bytes|
  {
    if p == 0 then Fed(r, [], []) else Feed(r, bytes, p - 1).Then(bytes[p - 1])
  }

  /** The byte does not end the transfer and is no data byte beyond the limit. */
  predicate Harmless(f: Fed, byte: Byte, limit: nat) {
    var e := Next(f.proto, byte).1;
    !e.Finish? && (e.Take? ==> |f.got| < limit)
  }

  ghost predicate Sensible(r: Proto, bytes: seq<Byte>, limit: nat) {
    forall p {:trigger Feed(r, bytes, p)} :: 0 <= p < |bytes| ==> Harmless(Feed(r, bytes, p), bytes[p], limit)
  }

  /** All frames of an upload. */
  function Script(data: seq<Byte>): seq<Byte>
    requires Blocks(data)
  {
    seq(ScriptLength(data), p requires 0 <= p < ScriptLength(data) => ScriptByte(data, p))
  }

  /** Fed with the frames, the receiver takes the data in order and acknowledges each block. */
  lemma {:induction false} ScriptFed(data: seq<Byte>, r: Proto, p: nat)
    requires Blocks(data) && p <= ScriptLength(data) && InStep(data, 0, Fed(r, [], []))
    ensures InStep(data, p, Feed(r, Script(data), p))
  {
    if p > 0 {
      ScriptFed(data, r, p - 1);
      FedNext(data, r, p);
    }
  }

  lemma InStepAtStart(data: seq<Byte>, r: Proto)
    requires Blocks(data) && Following(data, 0, r)
    ensures InStep(data, 0, Fed(r, [], []))
  {
  }

  lemma FedNext(data: seq<Byte>, r: Proto, p: nat)
    requires Blocks(data) && 0 < p <= ScriptLength(data) && InStep(data, p - 1, Feed(r, Script(data), p - 1))
    ensures InStep(data, p, Feed(r, Script(data), p))
  {
    var bytes := Script(data);
    OneMore(data, p - 1, Feed(r, bytes, p - 1));
    assert bytes[p - 1] == ScriptByte(data, p - 1);
  }

  ghost predicate InStep(data: seq<Byte>, p: nat, f: Fed)
    requires Blocks(data) && p <= ScriptLength(data)
  {
    && Following(data, p, f.proto) && Delivered(p) <= |data|
    && f.got == data[..Delivered(p)] && f.replies == Acks(p / FRAME_BYTES)
  }

  lemma OneMore(data: seq<Byte>, p: nat, f: Fed)
    requires Blocks(data) && p < ScriptLength(data) && InStep(data, p, f)
    ensures InStep(data, p + 1, f.Then(ScriptByte(data, p)))
    ensures Harmless(f, ScriptByte(data, p), |data|)
  {
    StepFollows(data, p, f.proto);
    assert (p + 1) / FRAME_BYTES == p / FRAME_BYTES + if p % FRAME_BYTES == 131 then 1 else 0;
  }

  lemma ScriptSensible(data: seq<Byte>, r: Proto)
    requires Blocks(data) && InStep(data, 0, Fed(r, [], []))
    ensures Sensible(r, Script(data), |data|)
  {
    var bytes := Script(data);
    forall p {:trigger Feed(r, bytes, p)} | 0 <= p < |bytes|
      ensures Harmless(Feed(r, bytes, p), bytes[p], |data|)
    {
      ScriptFed(data, r, p);
      OneMore(data, p, Feed(r, bytes, p));
    }
  }

  /** After the last frame the receiver has the data and waits for another frame or EOT. */
  lemma ScriptEnds(data: seq<Byte>, r: Proto, bytes: seq<Byte>)
    requires Blocks(data) && Following(data, 0, r) && bytes == Script(data)
    ensures Complete(Feed(r, bytes, |bytes|), data) && Sensible(r, bytes, |data|)
  {
    InStepAtStart(data, r);
    ScriptFed(data, r, |bytes|);
    ScriptSensible(data, r);
    InStepAtEnd(data, Feed(r, bytes, |bytes|));
  }

  ghost predicate Complete(f: Fed, data: seq<Byte>) {
    f.got == data && f.replies == Acks(|data| / BLOCK_BYTES) && AwaitsHeader(f.proto)
  }

  predicate AwaitsHeader(p: Proto) { p.state == EXP_SOH1 || p.state == EXP_SOH }

  lemma InStepAtEnd(data: seq<Byte>, f: Fed)
    requires Blocks(data) && InStep(data, ScriptLength(data), f)
    ensures Complete(f, data)
  {
    var n := ScriptLength(data);
    assert n % FRAME_BYTES == 0 && n / FRAME_BYTES == |data| / BLOCK_BYTES;
    assert Delivered(n) == |data| && data[..|data|] == data;
  }

  lemma StartsFollowing(data: seq<Byte>, r: Proto)
    requires Blocks(data) && r.state == EXP_SOH1 && r.block == 1
    ensures Following(data, 0, r)
  {
  }

  lemma PaddedBlocks(data: seq<Byte>, length: nat)
    requires PaddedTo(data, length)
    ensures Blocks(data) && 0 < length <= |data|
  {
  }

  function Acks(n: nat): seq<Byte> {
    if n == 0 then [] else Acks(n - 1) + [ACK]
  }

  /** Full sectors that hold all announced bytes hold the padding too. */
  lemma PaddingIsShort(data: seq<Byte>, length: nat, full: nat)
    requires PaddedTo(data, length)
    ensures |data| > 512 * full ==> length > 512 * full
  {
  }
}
