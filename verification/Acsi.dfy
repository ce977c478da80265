/** The ACSI disk of the Atari core: two targets backed by image files, refining two arrays of
    blocks with a sense code each. */
module Acsi {
  import opened Words
  import opened Chains
  import opened Disks
  import opened FatVolume

  const GOOD: Byte := 0x00
  const CHECK_CONDITION: Byte := 0x02
  const BAD_COMMAND: Byte := 0x20
  const BAD_BLOCK: Byte := 0x21
  const BAD_LUN: Byte := 0x25

  // ---------- requests ----------

  /** What a command asks for: the sense data, a fixed answer, or a block transfer. */
  datatype Class = Sense | Plain(status: Byte, asc: Byte) | Transfer

  datatype Request = Request(target: nat, device: nat, cmd: Byte, lba: nat, length: nat)
  {
    predicate Reads() { cmd == 0x08 || cmd == 0x28 }
    predicate Writes() { cmd == 0x0A || cmd == 0x2A }
    /** SCSI-2 addresses do not wrap; the range check of the firmware is computed in 32 bits. */
    predicate Sane() { lba < WORD && length < HALF && lba + length < WORD }

    /** The switch of handle_acsi: INQUIRY answers on every LUN, an unknown command is refused
        before its LUN is looked at. */
    function Kind(): Class {
      if cmd == 0x03 then Sense
      else if cmd == 0x12 then Plain(GOOD, 0)
      else if cmd !in {0x00, 0x04, 0x08, 0x0A, 0x1A, 0x25, 0x28, 0x2A} then Plain(CHECK_CONDITION, BAD_COMMAND)
      else if device != 0 then Plain(CHECK_CONDITION, BAD_LUN)
      else if Reads() || Writes() then Transfer
      else Plain(GOOD, 0)
    }
  }

  /** The command block as the core delivers it: six-byte commands carry 21 address bits and a
      length of 0 for 256 blocks, ten-byte READ and WRITE 32 bits and a plain length. */
  function Decode(b: seq<Byte>): (r: Request)
    requires |b| >= 20
    ensures r.target < 8 && r.device < 8 && r.lba < WORD && r.length < HALF
    ensures !(r.cmd in {0x28, 0x2A}) ==> r.Sane() && 1 <= r.length <= 256
  {
    var ten := b[9] == 0x28 || b[9] == 0x2A;
    Request(
      b[19] / 0x20,
      b[10] / 0x20,
      b[9],
      if ten then b[11] as int * 0x100_0000 + b[12] as int * 0x1_0000 + b[13] as int * 0x100 + b[14] as int
      else (b[10] % 0x20) as int * 0x1_0000 + b[11] as int * 0x100 + b[12] as int,
      if ten then b[16] as int * 0x100 + b[17] as int else if b[13] == 0 then 256 else b[13])
  }

  /** A six-byte command in the block the core delivers: 21 address bits, most significant first,
      and a length byte that is 0 for 256 blocks. */
  predicate SixByteLayout(b: seq<Byte>, r: Request)
    requires |b| >= 20
  {
    && b[9] == r.cmd && b[19] / 0x20 == r.target
    && b[10] == 0x20 * r.device + r.lba / 0x1_0000 && b[11] == r.lba / 0x100 % 0x100 && b[12] == r.lba % 0x100
    && b[13] == r.length % 0x100
  }

  /** A ten-byte READ or WRITE: 32 address bits and 16 length bits, most significant first. */
  predicate TenByteLayout(b: seq<Byte>, r: Request)
    requires |b| >= 20
  {
    && b[9] == r.cmd && b[19] / 0x20 == r.target && b[10] / 0x20 == r.device
    && b[11] == r.lba / 0x100_0000 && b[12] == r.lba / 0x1_0000 % 0x100
    && b[13] == r.lba / 0x100 % 0x100 && b[14] == r.lba % 0x100
    && b[16] == r.length / 0x100 && b[17] == r.length % 0x100
  }

  /** Decoding inverts the layout of the six-byte commands, for every target, LUN, address and
      length they can express ... */
  lemma DecodesSixByte(b: seq<Byte>, r: Request)
    requires |b| >= 20 && r.cmd !in {0x28, 0x2A}
    requires r.target < 8 && r.device < 8 && r.lba < 0x20_0000 && 1 <= r.length <= 256
    ensures Decode(b) == r <==> SixByteLayout(b, r)
  {
    var top, high, low := b[10] as int % 0x20, b[11] as int, b[12] as int;
    if Decode(b) == r {
      Digits(r.lba, top, high, low);
    } else if SixByteLayout(b, r) {
      DivModUnique(b[10], 0x20, r.device, r.lba / 0x1_0000);
      Digits(r.lba, r.lba / 0x1_0000, r.lba / 0x100 % 0x100, r.lba % 0x100);
    }
  }

  /** ... and that of READ(10) and WRITE(10). */
  lemma DecodesTenByte(b: seq<Byte>, r: Request)
    requires |b| >= 20 && r.cmd in {0x28, 0x2A}
    requires r.target < 8 && r.device < 8 && r.lba < WORD && r.length < HALF
    ensures Decode(b) == r <==> TenByteLayout(b, r)
  {
    var upper := b[11] as int * 0x100 + b[12] as int;
    Digits(r.lba, upper, b[13], b[14]);
    Digits(r.lba, r.lba / 0x1_0000, r.lba / 0x100 % 0x100, r.lba % 0x100);
    assert r.lba / 0x100_0000 == r.lba / 0x1_0000 / 0x100;
  }

  lemma Digits(n: nat, top: nat, high: nat, low: nat)
    requires high < 0x100 && low < 0x100
    ensures n == top * 0x1_0000 + high * 0x100 + low
       <==> top == n / 0x1_0000 && high == n / 0x100 % 0x100 && low == n % 0x100
  {
    assert n / 0x1_0000 == n / 0x100 / 0x100;
  }

  /** The 32-bit range check accepts a range exactly when the range is on the disk, or its end
      wraps past 2^32 to at most the disk size. */
  predicate CheckPasses(lba: nat, length: nat, blocks: nat) { (lba + length) % WORD <= blocks }

  /** The check lets only ranges on the disk pass, exactly if the end of the range does not wrap, or
      wraps to a block behind the disk. */
  lemma CheckIsRight(lba: nat, length: nat, blocks: nat)
    requires lba < WORD && length < HALF && blocks < WORD
    ensures (CheckPasses(lba, length, blocks) ==> lba + length <= blocks)
       <==> lba + length < WORD || blocks < lba + length - WORD
  {
  }

  /** A request that passes although the block it asks for does not exist. */
  lemma CheckCanWrap()
    ensures CheckPasses(0xFFFF_FFFF, 1, 2048) && !Request(0, 0, 0x28, 0xFFFF_FFFF, 1).Sane()
  {
  }

  // ---------- the simple disk ----------

  /** Two disks: an array of blocks and the sense code of the last command each. */
  datatype Machine = Machine(images: seq<seq<Sector>>, present: seq<bool>, asc: seq<Byte>)
  {
    predicate Valid() { |images| == |present| == |asc| == 2 }
  }

  datatype Reply = Nak | Ack(status: Byte, blocks: seq<Sector>, bytes: seq<Byte>)

  function Splice(a: seq<Sector>, at: nat, data: seq<Sector>): (r: seq<Sector>)
    requires at + |data| <= |a|
    ensures |r| == |a|
  {
    a[..at] + data + a[at + |data|..]
  }

  function SenseData(asc: Byte): seq<Byte> {
    [0, 0, if asc != 0 then 0x05 else 0, 0, 0, 0, 0, 0x0B, 0, 0, 0, 0, asc, 0, 0, 0, 0, 0]
  }

  predicate InRange(m: Machine, r: Request)
    requires m.Valid() && r.target < 2
  {
    r.lba + r.length <= |m.images[r.target]|
  }

  /** What one command does to the two disks, and its answer.  `incoming` are the blocks the host
      supplies to a write. */
  function Execute(m: Machine, r: Request, incoming: seq<Sector>): (Machine, Reply)
    requires m.Valid() && |incoming| == r.length
  {
    if r.target >= 2 || !m.present[r.target] then (m, Nak) else
    match r.Kind()
    case Sense =>
      var asc := if r.device != 0 then BAD_LUN else m.asc[r.target];
      (m.(asc := m.asc[r.target := 0]), Ack(GOOD, [], SenseData(asc)))
    case Plain(status, asc) => Done(m, r, status, asc, [])
    case Transfer =>
      if !InRange(m, r) then Done(m, r, CHECK_CONDITION, BAD_BLOCK, [])
      else if r.Reads() then Done(m, r, GOOD, 0, m.images[r.target][r.lba..r.lba + r.length])
      else
        var image := Splice(m.images[r.target], r.lba, incoming);
        Done(m.(images := m.images[r.target := image]), r, GOOD, 0, [])
  }

  function Done(m: Machine, r: Request, status: Byte, asc: Byte, blocks: seq<Sector>): (Machine, Reply)
    requires m.Valid() && r.target < 2
  {
    (m.(asc := m.asc[r.target := asc]), Ack(status, blocks, []))
  }

  /** The outcome of a transfer, spelled out. */
  lemma TransferMeans(m: Machine, r: Request, incoming: seq<Sector>, images: seq<seq<Sector>>,
                      status: Byte, code: Byte, sent: seq<Sector>)
    requires m.Valid() && |incoming| == r.length && r.target < 2 && m.present[r.target] && r.Kind().Transfer?
    requires var image := m.images[r.target];
             && images == (if r.lba + r.length <= |image| && r.Writes() && !r.Reads()
                           then m.images[r.target := Splice(image, r.lba, incoming)] else m.images)
             && (status, code, sent) ==
                  (if r.lba + r.length > |image| then (CHECK_CONDITION, BAD_BLOCK, [])
                   else (GOOD, 0, if r.Reads() then image[r.lba..r.lba + r.length] else []))
    ensures Execute(m, r, incoming) == (Machine(images, m.present, m.asc[r.target := code]), Ack(status, sent, []))
  {
  }

  lemma AnswerMeans(m: Machine, r: Request, incoming: seq<Sector>, asc: seq<Byte>, reply: Reply)
    requires m.Valid() && |incoming| == r.length && r.target < 2 && m.present[r.target] && !r.Kind().Transfer?
    requires r.Kind().Plain? ==> asc == m.asc[r.target := r.Kind().asc] && reply == Ack(r.Kind().status, [], [])
    requires r.Kind().Sense? ==> asc == m.asc[r.target := 0]
                                 && reply == Ack(GOOD, [],
                                                     SenseData(if r.device != 0 then BAD_LUN else m.asc[r.target]))
    ensures Execute(m, r, incoming) == (Machine(m.images, m.present, asc), reply)
  {
  }

  // ---------- what holds of the simple disk ----------

  /** A command leaves the other target alone; one that is refused leaves both disks alone. */
  lemma CommandsAreIsolated(m: Machine, r: Request, incoming: seq<Sector>, other: nat)
    requires m.Valid() && |incoming| == r.length && other < 2 && other != r.target
    ensures var m' := Execute(m, r, incoming).0;
            && m'.Valid() && m'.images[other] == m.images[other] && m'.asc[other] == m.asc[other]
            && forall t :: 0 <= t < 2 ==> |m'.images[t]| == |m.images[t]|
    ensures var (m', reply) := Execute(m, r, incoming);
            reply == Nak || reply.status == 0x02 || r.cmd !in {0x0A, 0x2A} ==> m'.images == m.images
  {
  }

  /** An out-of-range transfer is refused with sense code 0x21. */
  lemma OutOfRangeRefused(m: Machine, r: Request, incoming: seq<Sector>)
    requires m.Valid() && |incoming| == r.length && r.target < 2 && m.present[r.target] && r.device == 0
    requires (r.Reads() || r.Writes()) && !InRange(m, r)
    ensures var (m', reply) := Execute(m, r, incoming);
            reply == Ack(CHECK_CONDITION, [], []) && m'.images == m.images && m'.asc[r.target] == BAD_BLOCK
  {
  }

  /** REQUEST SENSE on device 0 reports the outcome of the preceding command on that target: which
      commands are known, which of them answer on the other LUNs, and which blocks exist.  Then the
      sense is gone. */
  lemma SenseReportsOutcome(m: Machine, r: Request, incoming: seq<Sector>, s: Request, none: seq<Sector>)
    requires m.Valid() && |incoming| == r.length && r.target < 2 && m.present[r.target]
    requires s.cmd == 0x03 && s.device == 0 && s.target == r.target && |none| == s.length
    ensures var (m1, first) := Execute(m, r, incoming);
            var (m2, second) := Execute(m1, s, none);
            && first.Ack? && second.Ack? && second.status == 0x00 && |second.bytes| == 18
            && second.bytes[7] == 0x0B && second.bytes[2] == (if second.bytes[12] == 0 then 0 else 0x05)
            && (forall i :: 0 <= i < 18 && i !in {2, 7, 12} ==> second.bytes[i] == 0)
            && m2.asc[r.target] == 0 && m2.images == m1.images
            && (r.cmd != 0x03 ==>
                  var code := second.bytes[12];
                  && first.status == (if code == 0 then 0x00 else 0x02)
                  && code in {0, 0x20, 0x21, 0x25}
                  && (code == 0x20 <==> r.cmd !in {0x00, 0x04, 0x08, 0x0A, 0x12, 0x1A, 0x25, 0x28, 0x2A})
                  && (code == 0x25 <==> r.device != 0 && r.cmd in {0x00, 0x04, 0x08, 0x0A, 0x1A, 0x25, 0x28, 0x2A})
                  && (code == 0x21 <==> r.device == 0 && r.cmd in {0x08, 0x0A, 0x28, 0x2A}
                                        && r.lba + r.length > |m.images[r.target]|))
  {
  }

  /** A block reads as what was last written to it, and other blocks as before. */
  lemma ReadAfterWrite(m: Machine, w: Request, incoming: seq<Sector>, r: Request, none: seq<Sector>)
    requires m.Valid() && |incoming| == w.length && |none| == r.length
    requires w.target < 2 && r.target == w.target && m.present[w.target] && w.device == 0 && r.device == 0
    requires w.cmd in {0x0A, 0x2A} && r.cmd in {0x08, 0x28} && InRange(m, w) && InRange(m, r)
    ensures var m1 := Execute(m, w, incoming).0;
            var before, after := Execute(m, r, none).1, Execute(m1, r, none).1;
            && before.Ack? && after.Ack? && |before.blocks| == |after.blocks| == r.length
            && forall k :: 0 <= k < r.length ==>
                 after.blocks[k] == if w.lba <= r.lba + k < w.lba + w.length then incoming[r.lba + k - w.lba]
                                    else before.blocks[k]
  {
    var t := w.target;
    var m1 := Execute(m, w, incoming).0;
    assert m1.images[t] == Splice(m.images[t], w.lba, incoming) && m1.present == m.present;
    assert Execute(m, r, none).1.blocks == m.images[t][r.lba..r.lba + r.length];
    assert Execute(m1, r, none).1.blocks == m1.images[t][r.lba..r.lba + r.length];
    var before, after := Execute(m, r, none).1.blocks, Execute(m1, r, none).1.blocks;
    forall k | 0 <= k < r.length
      ensures after[k] == if w.lba <= r.lba + k < w.lba + w.length then incoming[r.lba + k - w.lba] else before[k]
    {
      SpliceAt(m.images[t], w.lba, incoming, r.lba + k);
    }
  }

  lemma SpliceAt(a: seq<Sector>, at: nat, data: seq<Sector>, i: nat)
    requires at + |data| <= |a| && i < |a|
    ensures Splice(a, at, data)[i] == if at <= i < at + |data| then data[i - at] else a[i]
  {
  }

  /** The two disks after the first n commands of a run. */
  function Run(m: Machine, rs: seq<Request>, incoming: seq<seq<Sector>>, n: nat): (r: Machine)
    requires m.Valid() && Supplied(rs, incoming) && n <= |rs|
    ensures r.Valid()
  {
    if n == 0 then m else Execute(Run(m, rs, incoming, n - 1), rs[n - 1], incoming[n - 1]).0
  }

  /** ... and the answers to them. */
  function Replies(m: Machine, rs: seq<Request>, incoming: seq<seq<Sector>>, n: nat): (replies: seq<Reply>)
    requires m.Valid() && Supplied(rs, incoming) && n <= |rs|
  {
    if n == 0 then []
    else Replies(m, rs, incoming, n - 1) + [Execute(Run(m, rs, incoming, n - 1), rs[n - 1], incoming[n - 1]).1]
  }

  predicate Supplied(rs: seq<Request>, incoming: seq<seq<Sector>>) {
    |rs| == |incoming| && forall i :: 0 <= i < |rs| ==> |incoming[i]| == rs[i].length
  }

  lemma OneKeepsUnwritten(m: Machine, r: Request, incoming: seq<Sector>, t: nat, n: nat)
    requires m.Valid() && |incoming| == r.length && t < 2 && n < |m.images[t]|
    requires !(r.Writes() && r.target == t && r.device == 0 && r.lba <= n < r.lba + r.length)
    ensures var m' := Execute(m, r, incoming).0;
            |m'.images[t]| == |m.images[t]| && m'.images[t][n] == m.images[t][n]
  {
    if r.target < 2 && m.present[r.target] && r.Kind().Transfer? && InRange(m, r) && !r.Reads() && r.target == t {
      SpliceAt(m.images[t], r.lba, incoming, n);
    }
  }

  /** Over any run a block keeps its contents unless a command writes it. */
  lemma {:induction false} RunKeepsUnwritten(m: Machine, rs: seq<Request>, incoming: seq<seq<Sector>>, k: nat,
                                             t: nat, n: nat)
    requires m.Valid() && Supplied(rs, incoming) && k <= |rs| && t < 2 && n < |m.images[t]|
    requires forall i :: 0 <= i < k ==>
               !(rs[i].Writes() && rs[i].target == t && rs[i].device == 0 && rs[i].lba <= n < rs[i].lba + rs[i].length)
    ensures var m' := Run(m, rs, incoming, k);
            |m'.images[t]| == |m.images[t]| && m'.images[t][n] == m.images[t][n]
  {
    if k > 0 {
      RunKeepsUnwritten(m, rs, incoming, k - 1, t, n);
      OneKeepsUnwritten(Run(m, rs, incoming, k - 1), rs[k - 1], incoming[k - 1], t, n);
    }
  }

  // ---------- the firmware ----------

  /** What the sectors of image f on chain c are. */
  ghost function ImageOf(g: Geometry, d: Disk, c: Chain, blocks: nat): (image: seq<Sector>)
    requires g.Valid() && blocks <= Capacity(g, c)
    ensures |image| == blocks
    ensures forall n {:trigger image[n]} :: 0 <= n < blocks ==>
              n / g.clusterSize < |c| && image[n] == FileSector(g, d, c, n)
  {
    seq(blocks, n requires 0 <= n < blocks => InCapacity(g, c, n); FileSector(g, d, c, n))
  }

  lemma RangeOfImage(g: Geometry, d: Disk, c: Chain, blocks: nat, lba: nat, sent: seq<Sector>)
    requires g.Valid() && blocks <= Capacity(g, c) && lba + |sent| <= blocks && IsRange(g, d, c, lba, sent)
    ensures sent == ImageOf(g, d, c, blocks)[lba..lba + |sent|]
  {
  }

  /** A write splices the blocks into its image and leaves an image on a disjoint chain alone. */
  lemma WroteImage(g: Geometry, t: Table, d: Disk, d': Disk, c: Chain, lba: nat, data: seq<Sector>, blocks: nat)
    requires g.Valid() && g.shape.clusterLimit <= |t| && IsChain(g.shape, t, c)
    requires blocks <= Capacity(g, c) && lba + |data| <= blocks && Wrote(g, d, d', c, lba, data)
    ensures ImageOf(g, d', c, blocks) == Splice(ImageOf(g, d, c, blocks), lba, data)
  {
    var a, b := ImageOf(g, d', c, blocks), Splice(ImageOf(g, d, c, blocks), lba, data);
    forall n | 0 <= n < blocks
      ensures a[n] == b[n]
    {
      assert a[n] == FileSector(g, d', c, n);
    }
  }

  lemma WroteOtherImage(g: Geometry, t: Table, d: Disk, d': Disk, c: Chain, lba: nat, data: seq<Sector>,
                        c': Chain, blocks: nat)
    requires g.Valid() && g.shape.clusterLimit <= |t| && IsChain(g.shape, t, c) && IsChain(g.shape, t, c')
    requires Disjoint(c, c') && blocks <= Capacity(g, c') && Wrote(g, d, d', c, lba, data)
    ensures ImageOf(g, d', c', blocks) == ImageOf(g, d, c', blocks)
  {
    var a, b := ImageOf(g, d', c', blocks), ImageOf(g, d, c', blocks);
    forall n | 0 <= n < blocks
      ensures a[n] == b[n]
    {
      assert n / g.clusterSize < |c'| by { assert a[n] == FileSector(g, d', c', n); }
      OthersAreForeign(g, t, c, c', n);
    }
  }

  /** The commands of a run, none of which asks for a range that wraps. */
  ghost predicate Decoded(commands: seq<seq<Byte>>, rs: seq<Request>) {
    && |commands| == |rs|
    && forall i :: 0 <= i < |rs| ==> |commands[i]| >= 20 && rs[i] == Decode(commands[i]) && rs[i].Sane()
  }

  /** No sector outside the two images changed: not the FAT, no directory, no other file. */
  ghost predicate OthersKept(g: Geometry, d: Disk, d': Disk, c0: Chain, c1: Chain)
    requires g.clusterSize > 0
  {
    forall lba {:trigger Rd(d', lba)} :: Foreign(g, c0, lba) && Foreign(g, c1, lba) ==> Rd(d', lba) == Rd(d, lba)
  }

  /** Everything in front of the data area is as it was, and so is every file but the two images. */
  ghost predicate OnlyImagesChanged(g: Geometry, t: Table, d: Disk, d': Disk, c0: Chain, c1: Chain)
    requires g.Valid() && g.shape.clusterLimit <= |t|
  {
    && (forall lba :: 0 <= lba < g.dataStart ==> Rd(d', lba) == Rd(d, lba))
    && forall f: Chain, m: nat {:trigger FileSector(g, d', f, m)} ::
         IsChain(g.shape, t, f) && Disjoint(c0, f) && Disjoint(c1, f) && m / g.clusterSize < |f| ==>
           FileSector(g, d', f, m) == FileSector(g, d, f, m)
  }

  lemma OthersAreFiles(g: Geometry, t: Table, d: Disk, d': Disk, c0: Chain, c1: Chain)
    requires g.Valid() && g.shape.clusterLimit <= |t| && OthersKept(g, d, d', c0, c1)
    requires (c0 == [] || IsChain(g.shape, t, c0)) && (c1 == [] || IsChain(g.shape, t, c1))
    ensures OnlyImagesChanged(g, t, d, d', c0, c1)
  {
    forall lba | 0 <= lba < g.dataStart
      ensures Rd(d', lba) == Rd(d, lba)
    {
      if c0 != [] { SystemAreaIsForeign(g, t, c0, lba); }
      if c1 != [] { SystemAreaIsForeign(g, t, c1, lba); }
    }
    forall f: Chain, m: nat {:trigger FileSector(g, d', f, m)}
      | IsChain(g.shape, t, f) && Disjoint(c0, f) && Disjoint(c1, f) && m / g.clusterSize < |f|
      ensures FileSector(g, d', f, m) == FileSector(g, d, f, m)
    {
      if c0 != [] { OthersAreForeign(g, t, c0, f, m); }
      if c1 != [] { OthersAreForeign(g, t, c1, f, m); }
    }
  }

  /** hdd_image, asc and dma_buffer. */
  class Controller {
    const hdd0: FileHandle
    const hdd1: FileHandle
    const dmaBuffer: array<Byte>
    var asc: seq<Byte>

    constructor (f0: FileHandle, f1: FileHandle)
      ensures hdd0 == f0 && hdd1 == f1 && asc == [0, 0] && fresh(dmaBuffer) && dmaBuffer.Length == SECTOR_BYTES
    {
      hdd0, hdd1, asc := f0, f1, [0, 0];
      dmaBuffer := new Byte[SECTOR_BYTES];
    }

    function Hdd(t: nat): FileHandle { if t == 0 then hdd0 else hdd1 }

    /** Image t, if present, is fully allocated on the chain c and its handle stands on it. */
    ghost predicate Backed(vol: Volume, t: nat, c: Chain)
      reads this, vol`disk, hdd0, hdd1
    {
      vol.g.Valid() && Hdd(t).size < WORD &&
      (Hdd(t).size != 0 ==> vol.Owns(c) && Hdd(t).At(vol.g, c) && Hdd(t).size / 512 <= Capacity(vol.g, c))
    }

    ghost predicate Ready(vol: Volume, c0: Chain, c1: Chain)
      reads this, vol`disk, hdd0, hdd1
    {
      && hdd0 != hdd1 && |asc| == 2 && Disjoint(c0, c1)
      && dmaBuffer.Length == SECTOR_BYTES && dmaBuffer != vol.fatBuffer
      && Backed(vol, 0, c0) && Backed(vol, 1, c1)
    }

    ghost predicate Sized(g: Geometry, c0: Chain, c1: Chain)
      reads hdd0`size, hdd1`size
    {
      && g.Valid()
      && (hdd0.size != 0 ==> hdd0.size / 512 <= Capacity(g, c0))
      && (hdd1.size != 0 ==> hdd1.size / 512 <= Capacity(g, c1))
    }

    ghost function Images(g: Geometry, d: Disk, c0: Chain, c1: Chain): (images: seq<seq<Sector>>)
      reads hdd0`size, hdd1`size
      requires Sized(g, c0, c1)
      ensures |images| == 2
    {
      [if hdd0.size == 0 then [] else ImageOf(g, d, c0, hdd0.size / 512),
       if hdd1.size == 0 then [] else ImageOf(g, d, c1, hdd1.size / 512)]
    }

    ghost function Abs(vol: Volume, c0: Chain, c1: Chain): (m: Machine)
      reads this, vol`disk, hdd0, hdd1
      requires Ready(vol, c0, c1)
      ensures m.Valid()
    {
      Machine(Images(vol.g, vol.disk, c0, c1), [hdd0.size != 0, hdd1.size != 0], asc)
    }

    /** The loop of READ: `length` blocks to the host. */
    method SendBlocks(vol: Volume, t: nat, lba: nat, length: nat, ghost c: Chain) returns (sent: seq<Sector>)
      requires vol.Valid() && vol.Owns(c) && Hdd(t).At(vol.g, c) && lba + length <= Capacity(vol.g, c)
      requires dmaBuffer.Length == SECTOR_BYTES && dmaBuffer != vol.fatBuffer
      modifies Hdd(t)`sector, Hdd(t)`cluster, vol`bufferedFatIndex, vol.fatBuffer, dmaBuffer
      ensures vol.Valid() && Hdd(t).At(vol.g, c)
      ensures |sent| == length && IsRange(vol.g, vol.disk, c, lba, sent)
    {
      sent := [];
      CapacityFits(vol.g, vol.T(), c);
      while |sent| < length
        invariant vol.Valid() && Hdd(t).At(vol.g, c) && |sent| <= length
        invariant IsRange(vol.g, vol.disk, c, lba, sent)
      {
        InCapacity(vol.g, c, lba + |sent|);
        ghost var ok, links := vol.FileSeek(Hdd(t), lba + |sent|, false, c);
        vol.FileRead(Hdd(t), dmaBuffer, 0);
        sent := sent + [dmaBuffer[..]];
      }
    }

    /** The loop of WRITE: `incoming` from the host. */
    method TakeBlocks(vol: Volume, t: nat, lba: nat, incoming: seq<Sector>, ghost c: Chain)
      requires vol.Valid() && vol.Owns(c) && Hdd(t).At(vol.g, c) && lba + |incoming| <= Capacity(vol.g, c)
      requires dmaBuffer.Length == SECTOR_BYTES && dmaBuffer != vol.fatBuffer
      modifies Hdd(t)`sector, Hdd(t)`cluster, vol`bufferedFatIndex, vol`disk, vol.fatBuffer, dmaBuffer
      ensures vol.Valid() && vol.T() == old(vol.T()) && Hdd(t).At(vol.g, c)
      ensures Wrote(vol.g, old(vol.disk), vol.disk, c, lba, incoming)
    {
      var k := 0;
      CapacityFits(vol.g, vol.T(), c);
      while k < |incoming|
        invariant 0 <= k <= |incoming| && vol.Valid() && vol.T() == old(vol.T()) && Hdd(t).At(vol.g, c)
        invariant Wrote(vol.g, old(vol.disk), vol.disk, c, lba, incoming[..k])
      {
        InCapacity(vol.g, c, lba + k);
        WroteNext(vol.g, vol.T(), old(vol.disk), vol.disk, c, lba, incoming[..k], incoming[k]);
        assert incoming[..k] + [incoming[k]] == incoming[..k + 1];
        TakeOne(vol, t, lba + k, incoming[k], c);
        k := k + 1;
      }
      assert incoming[..k] == incoming;
    }

    method TakeOne(vol: Volume, t: nat, n: nat, s: Sector, ghost c: Chain)
      requires vol.Valid() && vol.Owns(c) && Hdd(t).At(vol.g, c) && n < WORD && n / vol.g.clusterSize < |c|
      requires dmaBuffer.Length == SECTOR_BYTES && dmaBuffer != vol.fatBuffer
      modifies Hdd(t)`sector, Hdd(t)`cluster, vol`bufferedFatIndex, vol`disk, vol.fatBuffer, dmaBuffer
      ensures vol.Valid() && vol.T() == old(vol.T()) && Hdd(t).At(vol.g, c)
      ensures vol.disk == old(vol.disk)[FileLba(vol.g, c, n) := s]
    {
      forall i | 0 <= i < SECTOR_BYTES {
        dmaBuffer[i] := s[i];
      }
      assert dmaBuffer[..] == s;
      ghost var ok, links := vol.FileSeek(Hdd(t), n, false, c);
      vol.FileWrite(Hdd(t), dmaBuffer, c);
    }

    /** READ or WRITE on LUN 0: the range check and the transfer. */
    method Transfer(vol: Volume, r: Request, incoming: seq<Sector>, ghost c: Chain)
      returns (status: Byte, code: Byte, sent: seq<Sector>)
      requires vol.Valid() && vol.Owns(c) && Hdd(r.target).At(vol.g, c)
      requires Hdd(r.target).size / 512 <= Capacity(vol.g, c)
      requires dmaBuffer.Length == SECTOR_BYTES && dmaBuffer != vol.fatBuffer
      requires r.Sane() && |incoming| == r.length && (r.Reads() || r.Writes())
      modifies Hdd(r.target)`sector, Hdd(r.target)`cluster, vol`bufferedFatIndex, vol`disk, vol.fatBuffer, dmaBuffer
      ensures vol.Valid() && vol.T() == old(vol.T()) && Hdd(r.target).At(vol.g, c)
      ensures var blocks := Hdd(r.target).size / 512;
              var image := old(ImageOf(vol.g, vol.disk, c, blocks));
              if r.lba + r.length > blocks then
                status == CHECK_CONDITION && code == BAD_BLOCK && sent == [] && vol.disk == old(vol.disk)
              else if r.Reads() then
                status == GOOD && code == 0 && sent == image[r.lba..r.lba + r.length] && vol.disk == old(vol.disk)
              else
                status == GOOD && code == 0 && sent == [] && Wrote(vol.g, old(vol.disk), vol.disk, c, r.lba, incoming)
    {
      var blocks := Hdd(r.target).size / 512;
      sent := [];
      NoWrap(r.lba + r.length);
      if !CheckPasses(r.lba, r.length, blocks) {
        return CHECK_CONDITION, BAD_BLOCK, sent;
      }
      if r.Reads() {
        sent := SendBlocks(vol, r.target, r.lba, r.length, c);
        RangeOfImage(vol.g, vol.disk, c, blocks, r.lba, sent);
      } else {
        TakeBlocks(vol, r.target, r.lba, incoming, c);
      }
      return GOOD, 0, sent;
    }

    /** handle_acsi for an image target; block transfers must not wrap past 2^32. */
    method HandleAcsi(vol: Volume, b: seq<Byte>, incoming: seq<Sector>, ghost c0: Chain, ghost c1: Chain)
      returns (reply: Reply)
      requires vol.Valid() && Ready(vol, c0, c1)
      requires |b| >= 20 && Decode(b).Sane() && |incoming| == Decode(b).length
      modifies this`asc, hdd0`sector, hdd0`cluster, hdd1`sector, hdd1`cluster
      modifies vol`bufferedFatIndex, vol`disk, vol.fatBuffer, dmaBuffer
      ensures vol.Valid() && Ready(vol, c0, c1) && vol.T() == old(vol.T())
      ensures OthersKept(vol.g, old(vol.disk), vol.disk, Part(0, c0), Part(1, c1))
      ensures (Abs(vol, c0, c1), reply) == Execute(old(Abs(vol, c0, c1)), Decode(b), incoming)
    {
      var r := Decode(b);
      if r.target < 2 && Hdd(r.target).size != 0 {
        reply := Serve(vol, r, incoming, c0, c1);
      } else {
        reply := Nak;
      }
    }

    /** The chain of image t, or none. */
    ghost function Part(t: nat, c: Chain): Chain
      reads hdd0`size, hdd1`size
    {
      if Hdd(t).size != 0 then c else []
    }

    /** Any run of commands refines the two disks, and touches nothing else on the card. */
    method HandleAll(vol: Volume, commands: seq<seq<Byte>>, incoming: seq<seq<Sector>>, ghost rs: seq<Request>,
                     ghost c0: Chain, ghost c1: Chain) returns (replies: seq<Reply>)
      requires vol.Valid() && Ready(vol, c0, c1) && Decoded(commands, rs) && Supplied(rs, incoming)
      modifies this`asc, hdd0`sector, hdd0`cluster, hdd1`sector, hdd1`cluster
      modifies vol`bufferedFatIndex, vol`disk, vol.fatBuffer, dmaBuffer
      ensures vol.Valid() && Ready(vol, c0, c1) && vol.T() == old(vol.T())
      ensures Abs(vol, c0, c1) == Run(old(Abs(vol, c0, c1)), rs, incoming, |rs|)
      ensures replies == Replies(old(Abs(vol, c0, c1)), rs, incoming, |rs|)
      ensures OnlyImagesChanged(vol.g, vol.T(), old(vol.disk), vol.disk, Part(0, c0), Part(1, c1))
    {
      replies := [];
      ghost var m, d := Abs(vol, c0, c1), vol.disk;
      for i := 0 to |commands|
        invariant vol.Valid() && Ready(vol, c0, c1) && vol.T() == old(vol.T())
        invariant Abs(vol, c0, c1) == Run(m, rs, incoming, i) && replies == Replies(m, rs, incoming, i)
        invariant OthersKept(vol.g, d, vol.disk, Part(0, c0), Part(1, c1))
      {
        var reply := HandleNext(vol, commands[i], rs[i], incoming[i], c0, c1, d);
        replies := replies + [reply];
      }
      OthersAreFiles(vol.g, vol.T(), old(vol.disk), vol.disk, Part(0, c0), Part(1, c1));
    }

    /** One more command of a run that began with card d. */
    method HandleNext(vol: Volume, b: seq<Byte>, ghost r: Request, incoming: seq<Sector>, ghost c0: Chain,
                      ghost c1: Chain, ghost d: Disk) returns (reply: Reply)
      requires vol.Valid() && Ready(vol, c0, c1) && OthersKept(vol.g, d, vol.disk, Part(0, c0), Part(1, c1))
      requires |b| >= 20 && r == Decode(b) && r.Sane() && |incoming| == r.length
      modifies this`asc, hdd0`sector, hdd0`cluster, hdd1`sector, hdd1`cluster
      modifies vol`bufferedFatIndex, vol`disk, vol.fatBuffer, dmaBuffer
      ensures vol.Valid() && Ready(vol, c0, c1) && vol.T() == old(vol.T())
      ensures OthersKept(vol.g, d, vol.disk, Part(0, c0), Part(1, c1))
      ensures (Abs(vol, c0, c1), reply) == Execute(old(Abs(vol, c0, c1)), r, incoming)
    {
      reply := HandleAcsi(vol, b, incoming, c0, c1);
    }

    /** The same, seen on the two images. */
    method TransferImages(vol: Volume, r: Request, incoming: seq<Sector>, ghost c0: Chain, ghost c1: Chain)
      returns (status: Byte, code: Byte, sent: seq<Sector>)
      requires vol.Valid() && Ready(vol, c0, c1) && r.target < 2 && Hdd(r.target).size != 0
      requires r.Sane() && |incoming| == r.length && (r.Reads() || r.Writes())
      modifies Hdd(r.target)`sector, Hdd(r.target)`cluster, vol`bufferedFatIndex, vol`disk, vol.fatBuffer, dmaBuffer
      ensures vol.Valid() && vol.T() == old(vol.T()) && Ready(vol, c0, c1)
      ensures OthersKept(vol.g, old(vol.disk), vol.disk, Part(0, c0), Part(1, c1))
      ensures var images := old(Images(vol.g, vol.disk, c0, c1));
              var image := images[r.target];
              Images(vol.g, vol.disk, c0, c1) ==
                (if r.lba + r.length <= |image| && r.Writes() && !r.Reads()
                 then images[r.target := Splice(image, r.lba, incoming)] else images)
              && (status, code, sent) ==
                (if r.lba + r.length > |image| then (CHECK_CONDITION, BAD_BLOCK, [])
                 else (GOOD, 0, if r.Reads() then image[r.lba..r.lba + r.length] else []))
    {
      ghost var c, c' := if r.target == 0 then c0 else c1, if r.target == 0 then c1 else c0;
      status, code, sent := Transfer(vol, r, incoming, c);
      if r.lba + r.length <= Hdd(r.target).size / 512 && !r.Reads() {
        WroteImage(vol.g, vol.T(), old(vol.disk), vol.disk, c, r.lba, incoming, Hdd(r.target).size / 512);
        if Hdd(1 - r.target).size != 0 {
          WroteOtherImage(vol.g, vol.T(), old(vol.disk), vol.disk, c, r.lba, incoming, c',
            Hdd(1 - r.target).size / 512);
        }
      }
    }

    /** The switch on the command, for a target that is present. */
    method Serve(vol: Volume, r: Request, incoming: seq<Sector>, ghost c0: Chain, ghost c1: Chain)
      returns (reply: Reply)
      requires vol.Valid() && Ready(vol, c0, c1) && r.target < 2 && Hdd(r.target).size != 0
      requires r.Sane() && |incoming| == r.length
      modifies this`asc, Hdd(r.target)`sector, Hdd(r.target)`cluster
      modifies vol`bufferedFatIndex, vol`disk, vol.fatBuffer, dmaBuffer
      ensures vol.Valid() && Ready(vol, c0, c1) && vol.T() == old(vol.T())
      ensures OthersKept(vol.g, old(vol.disk), vol.disk, Part(0, c0), Part(1, c1))
      ensures (Abs(vol, c0, c1), reply) == Execute(old(Abs(vol, c0, c1)), r, incoming)
    {
      ghost var m := Abs(vol, c0, c1);
      var kind := r.Kind();
      if kind.Transfer? {
        var status, code, sent := TransferImages(vol, r, incoming, c0, c1);
        TransferMeans(m, r, incoming, Images(vol.g, vol.disk, c0, c1), status, code, sent);
        asc := asc[r.target := code];
        reply := Ack(status, sent, []);
      } else {
        reply := Answer(r.target, kind, r.device);
        AnswerMeans(m, r, incoming, asc, reply);
      }
    }

    /** The commands that move no blocks. */
    method Answer(t: nat, kind: Class, device: nat) returns (reply: Reply)
      requires |asc| == 2 && t < 2 && !kind.Transfer?
      modifies this`asc
      ensures kind.Plain? ==> asc == old(asc)[t := kind.asc] && reply == Ack(kind.status, [], [])
      ensures kind.Sense? ==> asc == old(asc)[t := 0]
                              && reply == Ack(GOOD, [], SenseData(if device != 0 then BAD_LUN else old(asc)[t]))
    {
      if kind.Sense? {
        if device != 0 { asc := asc[t := BAD_LUN]; }
        reply := Ack(GOOD, [], SenseData(asc[t]));
        asc := asc[t := 0];
      } else {
        asc := asc[t := kind.asc];
        reply := Ack(kind.status, [], []);
      }
    }
  }
}
