/** The Amiga track format: odd/even encoded sectors as the floppy emulation sends them, and the
    decoder that takes them back from the write FIFO. */
module TrackCodec {

  const TRACK_SIZE: nat := 12668
  const SECTOR_SIZE: nat := 1088      // HEADER_SIZE + DATA_SIZE
  const SECTOR_COUNT: nat := 11
  const GAP_SIZE: nat := TRACK_SIZE - SECTOR_COUNT * SECTOR_SIZE
  const DATA: nat := 512              // payload bytes of a sector
  const SYNC_HIGH: bv8 := 0x44
  const SYNC_LOW: bv8 := 0x89

  type Payload = d: seq<bv8> | |d| == DATA witness seq(DATA, _ => 0)

  function Zeros(): Payload { seq(DATA, _ => 0) }

  // ---------- what a sector looks like on the track ----------

  function Fill(n: nat): (r: seq<bv8>) { seq(n, _ => 0xAA) }

  function Odd(x: bv8): bv8 { (x >> 1) & 0x55 }

  function Even(x: bv8): bv8 { x & 0x55 }

  function OddCode(x: bv8): bv8 { (x >> 1) | 0xAA }

  function EvenCode(x: bv8): bv8 { x | 0xAA }

  function Fold(x: bv8): bv8 { x ^ (x >> 1) }

  /** Exclusive or of every fourth byte, starting with byte j, over n groups. */
  function Column(s: seq<bv8>, j: nat, n: nat): bv8
    requires j < 4 && 4 * n <= |s|
  {
    if n == 0 then 0 else Column(s, j, n - 1) ^ s[4 * (n - 1) + j]
  }

  function Folded(d: seq<bv8>): (r: seq<bv8>)
    ensures |r| == |d|
  {
    seq(|d|, i requires 0 <= i < |d| => Fold(d[i]))
  }

  function Preamble(high: bv8, low: bv8): seq<bv8> { [0xAA, 0xAA, 0xAA, 0xAA, high, low, high, low] }

  function Header(sector: bv8, track: bv8): seq<bv8> {
    [0x55, Odd(track), Odd(sector), Odd(11 - sector), 0x55, Even(track), Even(sector), Even(11 - sector)]
  }

  function SumByte(odd: bv8, even: bv8): bv8 { (odd ^ even) | 0xAA }

  function HeaderSum(sector: bv8, track: bv8): seq<bv8> {
    [0xAA, 0xAA, 0xAA, 0xAA, SumByte(0x55, 0x55), SumByte(Odd(track), Even(track)),
     SumByte(Odd(sector), Even(sector)), SumByte(Odd(11 - sector), Even(11 - sector))]
  }

  function DataSum(d: Payload): seq<bv8> {
    [0xAA, 0xAA, 0xAA, 0xAA, Column(Folded(d), 0, 128) | 0xAA, Column(Folded(d), 1, 128) | 0xAA,
     Column(Folded(d), 2, 128) | 0xAA, Column(Folded(d), 3, 128) | 0xAA]
  }

  function OddField(d: seq<bv8>): (r: seq<bv8>)
    ensures |r| == |d|
  {
    seq(|d|, i requires 0 <= i < |d| => OddCode(d[i]))
  }

  function EvenField(d: seq<bv8>): (r: seq<bv8>)
    ensures |r| == |d|
  {
    seq(|d|, i requires 0 <= i < |d| => EvenCode(d[i]))
  }

  /** What follows the two sync words: 48 header bytes. */
  function HeaderField(sector: bv8, track: bv8): (r: seq<bv8>)
    ensures |r| == 48
  {
    Header(sector, track) + Fill(32) + HeaderSum(sector, track)
  }

  function DataField(d: Payload): (r: seq<bv8>)
    ensures |r| == 1032
  {
    DataSum(d) + OddField(d) + EvenField(d)
  }

  function EncodedSector(d: Payload, sector: bv8, track: bv8, high: bv8, low: bv8): (r: seq<bv8>)
    ensures |r| == SECTOR_SIZE
  {
    Preamble(high, low) + HeaderField(sector, track) + DataField(d)
  }

  predicate Bit(x: bv8, mask: bv8) { x & mask != 0 }

  /** The first half of a field carries bits 7, 5, 3 and 1 of each byte, the second bits 6, 4, 2 and
      0, in the even places; the odd places are clear in the info bytes and set in the data. */
  lemma HalvesOfByte(x: bv8)
    ensures Bit(Odd(x), 0x40) == Bit(x, 0x80) && Bit(Odd(x), 0x10) == Bit(x, 0x20)
    ensures Bit(Odd(x), 0x04) == Bit(x, 0x08) && Bit(Odd(x), 0x01) == Bit(x, 0x02) && !Bit(Odd(x), 0xAA)
    ensures Bit(Even(x), 0x40) == Bit(x, 0x40) && Bit(Even(x), 0x10) == Bit(x, 0x10)
    ensures Bit(Even(x), 0x04) == Bit(x, 0x04) && Bit(Even(x), 0x01) == Bit(x, 0x01) && !Bit(Even(x), 0xAA)
    ensures OddCode(x) == Odd(x) | 0xAA && EvenCode(x) == Even(x) | 0xAA
  {
  }

  /** A sector begins with the sync words and four info bytes: 0xFF, track, sector, and the number
      of sectors up to the gap. */
  lemma InfoLayout(d: Payload, sector: bv8, track: bv8, high: bv8, low: bv8)
    ensures EncodedSector(d, sector, track, high, low)[..16]
         == [0xAA, 0xAA, 0xAA, 0xAA, high, low, high, low]
            + [Odd(0xFF), Odd(track), Odd(sector), Odd(11 - sector)]
            + [Even(0xFF), Even(track), Even(sector), Even(11 - sector)]
  {
    var e := EncodedSector(d, sector, track, high, low);
    EncodedParts(e, d, sector, track, high, low);
    AllOnes();
    assert HeaderField(sector, track)[..8] == Header(sector, track);
    assert e[..16] == e[0..8] + e[8..56][..8];
  }

  lemma AllOnes()
    ensures Odd(0xFF) == 0x55 && Even(0xFF) == 0x55
  {
  }

  /** Then come the empty label and the checksum of the info bytes ... */
  lemma LabelLayout(d: Payload, sector: bv8, track: bv8, high: bv8, low: bv8, i: nat)
    requires 16 <= i < 56
    ensures var e := EncodedSector(d, sector, track, high, low);
            e[i] == if i < 52 then 0xAA else SumByte(e[i - 44], e[i - 40])
  {
    var e, h := EncodedSector(d, sector, track, high, low), HeaderField(sector, track);
    assert e[i] == h[i - 8];
    if 52 <= i {
      assert e[i - 44] == h[i - 52] && e[i - 40] == h[i - 48];
      HeaderSums(sector, track, i - 52);
    }
  }

  lemma HeaderSums(sector: bv8, track: bv8, j: nat)
    requires j < 4
    ensures var h := HeaderField(sector, track); h[44 + j] == SumByte(h[j], h[4 + j])
  {
    assert HeaderField(sector, track)[j] == Header(sector, track)[j];
    assert HeaderField(sector, track)[4 + j] == Header(sector, track)[4 + j];
    assert HeaderField(sector, track)[44 + j] == HeaderSum(sector, track)[4 + j];
  }

  /** ... and at last the 512 bytes of data, behind their checksum. */
  lemma DataLayout(d: Payload, sector: bv8, track: bv8, high: bv8, low: bv8, i: nat)
    requires i < DATA
    ensures var e := EncodedSector(d, sector, track, high, low);
            e[64 + i] == OddCode(d[i]) && e[576 + i] == EvenCode(d[i])
  {
    var e, f := EncodedSector(d, sector, track, high, low), DataField(d);
    assert e[64 + i] == f[8 + i] == OddField(d)[i];
    assert e[576 + i] == f[520 + i] == EvenField(d)[i];
  }

  // ---------- sending ----------

  /** SendSector; the bytes handed to SPI are the result. */
  method SendSector(d: Payload, sector: bv8, track: bv8, high: bv8, low: bv8) returns (out: seq<bv8>)
    ensures out == EncodedSector(d, sector, track, high, low)
  {
    out := [0xAA, 0xAA, 0xAA, 0xAA];
    out := out + [high];
    out := out + [low];
    out := out + [high];
    out := out + [low];
    assert out == Preamble(high, low);
    var header := SendHeader(sector, track);
    var data := SendData(d);
    out := out + header + data;
  }

  /** The part of SendSector from the header to its checksum. */
  method SendHeader(sector: bv8, track: bv8) returns (out: seq<bv8>)
    ensures out == HeaderField(sector, track)
  {
    var c0, c1, c2, c3;
    out, c0, c1, c2, c3 := SendInfo(sector, track);
    out := out + Fill(32);
    out := out + [0xAA, 0xAA, 0xAA, 0xAA, c0 | 0xAA, c1 | 0xAA, c2 | 0xAA, c3 | 0xAA];
  }

  /** The eight bytes that name track and sector, and their checksum. */
  method SendInfo(sector: bv8, track: bv8) returns (out: seq<bv8>, c0: bv8, c1: bv8, c2: bv8, c3: bv8)
    ensures out == Header(sector, track) && c0 == 0x55 ^ 0x55 && c1 == Odd(track) ^ Even(track)
    ensures c2 == Odd(sector) ^ Even(sector) && c3 == Odd(11 - sector) ^ Even(11 - sector)
  {
    var x: bv8 := 0x55;
    c0, out := x, [x];
    x := Odd(track);
    c1, out := x, out + [x];
    x := Odd(sector);
    c2, out := x, out + [x];
    x := Odd(11 - sector);
    c3, out := x, out + [x];
    x := 0x55;
    c0, out := c0 ^ x, out + [x];
    x := Even(track);
    c1, out := c1 ^ x, out + [x];
    x := Even(sector);
    c2, out := c2 ^ x, out + [x];
    x := Even(11 - sector);
    c3, out := c3 ^ x, out + [x];
  }

  /** The part of SendSector from the data checksum on. */
  method SendData(d: Payload) returns (out: seq<bv8>)
    ensures out == DataField(d)
  {
    var c0, c1, c2, c3 := DataChecksum(d);
    out := [0xAA, 0xAA, 0xAA, 0xAA, c0 | 0xAA, c1 | 0xAA, c2 | 0xAA, c3 | 0xAA];
    assert out == DataSum(d);
    for i := 0 to DATA
      invariant out == DataSum(d) + OddField(d)[..i]
    {
      out := out + [OddCode(d[i])];
    }
    for i := 0 to DATA
      invariant out == DataSum(d) + OddField(d) + EvenField(d)[..i]
    {
      out := out + [EvenCode(d[i])];
    }
  }

  method DataChecksum(d: Payload) returns (c0: bv8, c1: bv8, c2: bv8, c3: bv8)
    ensures c0 == Column(Folded(d), 0, 128) && c1 == Column(Folded(d), 1, 128)
    ensures c2 == Column(Folded(d), 2, 128) && c3 == Column(Folded(d), 3, 128)
  {
    c0, c1, c2, c3 := 0, 0, 0, 0;
    for i := 0 to 128
      invariant c0 == Column(Folded(d), 0, i) && c1 == Column(Folded(d), 1, i)
      invariant c2 == Column(Folded(d), 2, i) && c3 == Column(Folded(d), 3, i)
    {
      var p := 4 * i;
      c0 := c0 ^ Fold(d[p]);
      c1 := c1 ^ Fold(d[p + 1]);
      c2 := c2 ^ Fold(d[p + 2]);
      c3 := c3 ^ Fold(d[p + 3]);
    }
  }

  // ---------- taking sectors back from the FIFO ----------

  /** The byte whose odd and even bits were received. */
  function OddPart(x: bv8): bv8 { (x & 0x55) << 1 }

  function Merged(part: bv8, even: bv8): bv8 { part | Even(even) }

  function Joined(odd: bv8, even: bv8): bv8 { Merged(OddPart(odd), even) }

  /** What GetHeader makes of the 50 bytes behind a sync word: an error number, or 0. */
  function HeaderError(w: seq<bv8>): (error: nat)
    requires |w| == 50
  {
    if w[0] != SYNC_HIGH || w[1] != SYNC_LOW then 21
    else if Joined(w[2], w[6]) != 0xFF then 22
    else if Joined(w[3], w[7]) > 159 then 23
    else if Joined(w[4], w[8]) > 10 then 24
    else if Joined(w[5], w[9]) > 11 || Joined(w[5], w[9]) == 0 then 25
    else if HeaderSumAt(w, 0) && HeaderSumAt(w, 1) && HeaderSumAt(w, 2) && HeaderSumAt(w, 3) then 0
    else 26
  }

  /** A header is good if it begins with the second sync word, its info bytes decode to 0xFF, a track
      up to 159, a sector up to 10 and a distance to the gap of 1 to 11, and its checksum is right;
      the error number names the first of these that fails. */
  lemma HeaderErrorMeans(w: seq<bv8>)
    requires |w| == 50
    ensures var sync, ones := w[0] == 0x44 && w[1] == 0x89, Joined(w[2], w[6]) == 0xFF;
            var track, sector := Joined(w[3], w[7]) <= 159, Joined(w[4], w[8]) <= 10;
            var gap := 1 <= Joined(w[5], w[9]) <= 11;
            var sum := forall j :: 0 <= j < 4 ==> HeaderSumAt(w, j);
            var error := HeaderError(w);
            && (error == 0 <==> sync && ones && track && sector && gap && sum)
            && (error == 21 <==> !sync) && (error == 22 <==> sync && !ones)
            && (error == 23 <==> sync && ones && !track) && (error == 24 <==> sync && ones && track && !sector)
            && (error == 25 <==> sync && ones && track && sector && !gap)
            && (error == 26 <==> sync && ones && track && sector && gap && !sum)
  {
    NotZero(Joined(w[5], w[9]));
    assert (forall j :: 0 <= j < 4 ==> HeaderSumAt(w, j)) <==>
             HeaderSumAt(w, 0) && HeaderSumAt(w, 1) && HeaderSumAt(w, 2) && HeaderSumAt(w, 3);
  }

  lemma NotZero(x: bv8)
    ensures x != 0 <==> 1 <= x
  {
  }

  predicate HeaderSumAt(w: seq<bv8>, j: nat)
    requires |w| == 50 && j < 4
  {
    SumMatches(w[42 + j], w[46 + j], w[2 + j], w[6 + j], Column(w[10..42], j, 8))
  }

  /** The stored checksum byte is the one of header bytes x and y and the label's column. */
  predicate SumMatches(odd: bv8, even: bv8, x: bv8, y: bv8, column: bv8) {
    Joined(odd, even) == (x ^ y ^ column) & 0x55
  }

  /** What GetData makes of the 1032 bytes behind a header. */
  predicate DataAccepted(w: seq<bv8>)
    requires |w| == 1032
  {
    forall j :: 0 <= j < 4 ==> DataSumAt(w, j)
  }

  /** The stored checksum byte j is the one of the columns of both halves. */
  predicate DataSumAt(w: seq<bv8>, j: nat)
    requires |w| == 1032 && j < 4
  {
    HalvesMatch(w[j], w[4 + j], Column(w[8..520], j, 128), Column(w[520..], j, 128))
  }

  predicate HalvesMatch(odd: bv8, even: bv8, a: bv8, c: bv8) { Joined(odd, even) == (a ^ c) & 0x55 }

  function DataColumn(w: seq<bv8>, j: nat): bv8
    requires |w| == 1032 && j < 4
  {
    (Column(w[8..520], j, 128) ^ Column(w[520..], j, 128)) & 0x55
  }

  lemma FourSums(w: seq<bv8>)
    requires |w| == 1032
    ensures DataAccepted(w) <==> Joined(w[0], w[4]) == DataColumn(w, 0) && Joined(w[1], w[5]) == DataColumn(w, 1)
                                 && Joined(w[2], w[6]) == DataColumn(w, 2) && Joined(w[3], w[7]) == DataColumn(w, 3)
  {
    assert DataAccepted(w) <==> DataSumAt(w, 0) && DataSumAt(w, 1) && DataSumAt(w, 2) && DataSumAt(w, 3);
  }

  function DataDecoded(w: seq<bv8>): (r: Payload)
    requires |w| == 1032
  {
    seq(DATA, i requires 0 <= i < DATA => Joined(w[8 + i], w[520 + i]))
  }

  // ---------- the encoder's output decodes ----------

  lemma JoinedBits(x: bv8)
    ensures Joined(Odd(x), Even(x)) == x && Joined(OddCode(x), EvenCode(x)) == x
    ensures Joined(0xAA, x | 0xAA) == x & 0x55
    ensures (OddCode(x) ^ EvenCode(x)) & 0x55 == Fold(x) & 0x55
  {
  }

  /** Both halves of the data field together have the checksum of the folded data. */
  lemma {:induction false} ColumnsAgree(d: seq<bv8>, j: nat, n: nat)
    requires j < 4 && 4 * n <= |d|
    ensures (Column(OddField(d), j, n) ^ Column(EvenField(d), j, n)) & 0x55 == Column(Folded(d), j, n) & 0x55
  {
    if n > 0 {
      ColumnsAgree(d, j, n - 1);
      var x := d[4 * (n - 1) + j];
      JoinedBits(x);
      MixMasked(Column(OddField(d), j, n - 1), OddCode(x), Column(EvenField(d), j, n - 1), EvenCode(x));
      XorMasked(Column(Folded(d), j, n - 1), Fold(x));
    }
  }

  lemma MixMasked(a: bv8, x: bv8, b: bv8, y: bv8)
    ensures ((a ^ x) ^ (b ^ y)) & 0x55 == ((a ^ b) & 0x55) ^ ((x ^ y) & 0x55)
  {
  }

  lemma XorMasked(a: bv8, x: bv8)
    ensures (a ^ x) & 0x55 == (a & 0x55) ^ (x & 0x55)
  {
  }

  /** A data field decodes to the data it was made from. */
  lemma DataRoundTrip(d: Payload)
    ensures DataAccepted(DataField(d)) && DataDecoded(DataField(d)) == d
  {
    var w := DataField(d);
    assert w[8..520] == OddField(d) && w[520..] == EvenField(d);
    forall j | 0 <= j < 4
      ensures DataSumAt(w, j)
    {
      ColumnsAgree(d, j, 128);
      JoinedBits(Column(Folded(d), j, 128));
      assert w[j] == 0xAA && w[4 + j] == Column(Folded(d), j, 128) | 0xAA;
    }
    forall i | 0 <= i < DATA
      ensures Joined(w[8 + i], w[520 + i]) == d[i]
    {
      JoinedBits(d[i]);
      assert w[8 + i] == OddField(d)[i] && w[520 + i] == EvenField(d)[i];
    }
  }

  lemma {:induction false} FillColumn(j: nat, n: nat)
    requires j < 4 && n % 2 == 0 && 4 * n <= 32
    ensures Column(Fill(32), j, n) == 0
  {
    if n > 0 {
      FillColumn(j, n - 2);
      assert Column(Fill(32), j, n) == Column(Fill(32), j, n - 1) ^ 0xAA;
      assert Column(Fill(32), j, n - 1) == Column(Fill(32), j, n - 2) ^ 0xAA;
    }
  }

  /** A header decodes to its track and sector numbers. */
  lemma HeaderRoundTrip(sector: bv8, track: bv8)
    requires sector <= 10 && track <= 159
    ensures var w := [SYNC_HIGH, SYNC_LOW] + HeaderField(sector, track);
            HeaderError(w) == 0 && Joined(w[3], w[7]) == track && Joined(w[4], w[8]) == sector
  {
    var w := [SYNC_HIGH, SYNC_LOW] + HeaderField(sector, track);
    assert w[2..10] == Header(sector, track) && w[10..42] == Fill(32) && w[42..50] == HeaderSum(sector, track);
    JoinedBits(track);
    JoinedBits(sector);
    JoinedBits(11 - sector);
    HeaderSumMatches(w, sector, track, 0);
    HeaderSumMatches(w, sector, track, 1);
    HeaderSumMatches(w, sector, track, 2);
    HeaderSumMatches(w, sector, track, 3);
    assert Joined(0x55, 0x55) == 0xFF && 0 < 11 - sector <= 11;
  }

  lemma HeaderSumMatches(w: seq<bv8>, sector: bv8, track: bv8, j: nat)
    requires |w| == 50 && w[2..10] == Header(sector, track) && w[10..42] == Fill(32)
    requires w[42..50] == HeaderSum(sector, track) && j < 4
    ensures HeaderSumAt(w, j)
  {
    var h, c := Header(sector, track), HeaderSum(sector, track);
    if j == 0 {
      HeaderByte(w, h, c, 0, 0x55, 0x55);
    } else if j == 1 {
      HeaderByte(w, h, c, 1, Odd(track), Even(track));
    } else if j == 2 {
      HeaderByte(w, h, c, 2, Odd(sector), Even(sector));
    } else {
      HeaderByte(w, h, c, 3, Odd(11 - sector), Even(11 - sector));
    }
  }

  lemma HeaderByte(w: seq<bv8>, h: seq<bv8>, c: seq<bv8>, j: nat, x: bv8, y: bv8)
    requires |w| == 50 && j < 4 && w[2..10] == h && w[10..42] == Fill(32) && w[42..50] == c
    requires h[j] == x && h[4 + j] == y && c[j] == 0xAA && c[4 + j] == SumByte(x, y)
    ensures HeaderSumAt(w, j)
  {
    FillColumn(j, 8);
    assert w[2 + j] == h[j] && w[6 + j] == h[4 + j] && w[42 + j] == c[j] && w[46 + j] == c[4 + j];
    ChecksumByte(x ^ y);
  }

  lemma ChecksumByte(sum: bv8)
    ensures Joined(0xAA, sum | 0xAA) == (sum ^ 0) & 0x55
  {
  }

  // ---------- damaged data is rejected ----------

  /** What replacing x by b does to a column that the byte is in, or not. */
  function Delta(x: bv8, b: bv8, hit: bool): bv8 { if hit then x ^ b else 0 }

  lemma {:induction false} ColumnChanged(s: seq<bv8>, i: nat, b: bv8, j: nat, n: nat)
    requires j < 4 && 4 * n <= |s| && i < |s|
    ensures Column(s[i := b], j, n) == Column(s, j, n) ^ Delta(s[i], b, i < 4 * n && i % 4 == j)
  {
    if n == 0 {
      DeltaStep(0, s[i], b, 0, false, false);
    } else {
      ColumnChanged(s, i, b, j, n - 1);
      var k := 4 * (n - 1) + j;
      assert s[i := b][k] == if i == k then b else s[k];
      InColumn(i, j, n);
      DeltaStep(Column(s, j, n - 1), s[i], b, s[k], i < 4 * (n - 1) && i % 4 == j, i == k);
    }
  }

  lemma InColumn(i: nat, j: nat, n: nat)
    requires j < 4 && n > 0
    ensures i < 4 * n && i % 4 == j <==> (i < 4 * (n - 1) && i % 4 == j) || i == 4 * (n - 1) + j
    ensures !(i < 4 * (n - 1) && i == 4 * (n - 1) + j)
  {
  }

  lemma DeltaStep(c: bv8, x: bv8, b: bv8, y: bv8, earlier: bool, here: bool)
    requires !(earlier && here) && (here ==> y == x)
    ensures (c ^ Delta(x, b, earlier)) ^ (if here then b else y) == (c ^ y) ^ Delta(x, b, earlier || here)
    ensures c == c ^ Delta(x, b, false)
  {
  }

  /** GetData accepts a good data field with one byte changed exactly when no bit it looks at
      changed: any flipped data or checksum bit is detected. */
  lemma OneByteDetected(w: seq<bv8>, i: nat, b: bv8)
    requires |w| == 1032 && DataAccepted(w) && i < |w|
    ensures DataAccepted(w[i := b]) <==> SameBits(w[i], b)
  {
    var v := w[i := b];
    forall j | 0 <= j < 4
      ensures DataSumAt(v, j) <==> i % 4 != j || SameBits(w[i], b)
    {
      if i < 8 {
        SumByteChanged(w, i, b, j);
      } else {
        DataByteChanged(w, i, b, j);
      }
    }
    assert DataSumAt(v, i % 4) <==> SameBits(w[i], b);
  }

  lemma DataByteChanged(w: seq<bv8>, i: nat, b: bv8, j: nat)
    requires |w| == 1032 && 8 <= i < |w| && j < 4 && DataSumAt(w, j)
    ensures DataSumAt(w[i := b], j) <==> i % 4 != j || SameBits(w[i], b)
  {
    var odd, even := Column(w[8..520], j, 128), Column(w[520..], j, 128);
    if i < 520 {
      OddByteChanged(w, i, b, j);
    } else {
      EvenByteChanged(w, i, b, j);
    }
    ColumnsChanged(w[j], w[4 + j], odd, even, w[i], b, i % 4 == j);
  }

  lemma OddByteChanged(w: seq<bv8>, i: nat, b: bv8, j: nat)
    requires |w| == 1032 && 8 <= i < 520 && j < 4
    ensures Column(w[i := b][8..520], j, 128) == Mixed(Column(w[8..520], j, 128), w[i], b, i % 4 == j)
    ensures w[i := b][520..] == w[520..]
  {
    FieldSlices(w, i, b);
    ColumnChanged(w[8..520], i - 8, b, j, 128);
  }

  lemma EvenByteChanged(w: seq<bv8>, i: nat, b: bv8, j: nat)
    requires |w| == 1032 && 520 <= i < |w| && j < 4
    ensures Column(w[i := b][520..], j, 128) == Mixed(Column(w[520..], j, 128), w[i], b, i % 4 == j)
    ensures w[i := b][8..520] == w[8..520]
  {
    FieldSlices(w, i, b);
    ColumnChanged(w[520..], i - 520, b, j, 128);
  }

  lemma FieldSlices(w: seq<bv8>, i: nat, b: bv8)
    requires |w| == 1032 && 8 <= i < |w|
    ensures w[i := b][8..520] == if i < 520 then w[8..520][i - 8 := b] else w[8..520]
    ensures w[i := b][520..] == if i < 520 then w[520..] else w[520..][i - 520 := b]
  {
  }

  /** A changed checksum byte changes the stored checksum, if anything. */
  lemma SumByteChanged(w: seq<bv8>, i: nat, b: bv8, j: nat)
    requires |w| == 1032 && i < 8 && j < 4 && DataSumAt(w, j)
    ensures DataSumAt(w[i := b], j) <==> i % 4 != j || SameBits(w[i], b)
  {
    var v := w[i := b];
    assert v[8..520] == w[8..520] && v[520..] == w[520..];
    JoinedChanged(w[j], w[4 + j], b);
    if i == j {
      assert v[j] == b && v[4 + j] == w[4 + j];
    } else if i == 4 + j {
      assert v[4 + j] == b && v[j] == w[j];
    } else {
      assert v[j] == w[j] && v[4 + j] == w[4 + j];
    }
  }

  lemma JoinedChanged(x: bv8, y: bv8, b: bv8)
    ensures Joined(b, y) == Joined(x, y) <==> (x ^ b) & 0x55 == 0
    ensures Joined(x, b) == Joined(x, y) <==> (y ^ b) & 0x55 == 0
  {
  }

  lemma ColumnsChanged(odd: bv8, even: bv8, a: bv8, c: bv8, x: bv8, b: bv8, hit: bool)
    requires HalvesMatch(odd, even, a, c)
    ensures HalvesMatch(odd, even, Mixed(a, x, b, hit), c) <==> !hit || SameBits(x, b)
    ensures HalvesMatch(odd, even, a, Mixed(c, x, b, hit)) <==> !hit || SameBits(x, b)
  {
  }

  /** x and b agree in the bits that carry data. */
  predicate SameBits(x: bv8, b: bv8) { (x ^ b) & 0x55 == 0 }

  /** ... and then the data is what it was. */
  lemma DecodedSame(w: seq<bv8>, i: nat, b: bv8)
    requires |w| == 1032 && i < |w| && SameBits(w[i], b)
    ensures DataDecoded(w[i := b]) == DataDecoded(w)
  {
    var v := w[i := b];
    forall k | 0 <= k < DATA
      ensures DataDecoded(v)[k] == DataDecoded(w)[k]
    {
      JoinedChanged(w[8 + k], w[520 + k], b);
    }
  }

  /** GetHeader accepts a good header with one byte behind the sync word changed exactly when no bit
      it looks at changed. */
  lemma HeaderByteDetected(w: seq<bv8>, i: nat, b: bv8)
    requires |w| == 50 && HeaderError(w) == 0 && 2 <= i < 50
    ensures HeaderError(w[i := b]) == 0 <==> SameBits(w[i], b)
    ensures SameBits(w[i], b) ==> SameInfo(w, w[i := b], 1) && SameInfo(w, w[i := b], 2)
  {
    HeaderSumChanged(w, i, b, (i - 2) % 4);
    if SameBits(w[i], b) {
      InfoByteChanged(w, i, b, 0);
      InfoByteChanged(w, i, b, 1);
      InfoByteChanged(w, i, b, 2);
      InfoByteChanged(w, i, b, 3);
      HeaderSumChanged(w, i, b, 0);
      HeaderSumChanged(w, i, b, 1);
      HeaderSumChanged(w, i, b, 2);
      HeaderSumChanged(w, i, b, 3);
    }
  }

  /** Info byte j of two headers decodes to the same. */
  predicate SameInfo(w: seq<bv8>, v: seq<bv8>, j: nat)
    requires |w| == |v| == 50 && j < 4
  {
    Joined(v[2 + j], v[6 + j]) == Joined(w[2 + j], w[6 + j])
  }

  lemma InfoByteChanged(w: seq<bv8>, i: nat, b: bv8, j: nat)
    requires |w| == 50 && 2 <= i < 50 && j < 4 && SameBits(w[i], b)
    ensures SameInfo(w, w[i := b], j)
  {
    JoinedChanged(w[2 + j], w[6 + j], b);
  }

  /** One changed byte breaks the checksum of its column, if a data bit changed, and no other. */
  lemma HeaderSumChanged(w: seq<bv8>, i: nat, b: bv8, j: nat)
    requires |w| == 50 && 2 <= i < 50 && j < 4 && HeaderSumAt(w, j)
    ensures HeaderSumAt(w[i := b], j) <==> (i - 2) % 4 != j || SameBits(w[i], b)
  {
    if 10 <= i < 42 {
      LabelByteChanged(w, i, b, j);
    } else {
      SumFieldChanged(w, i, b, j);
    }
  }

  lemma LabelByteChanged(w: seq<bv8>, i: nat, b: bv8, j: nat)
    requires |w| == 50 && 10 <= i < 42 && j < 4 && HeaderSumAt(w, j)
    ensures HeaderSumAt(w[i := b], j) <==> (i - 2) % 4 != j || SameBits(w[i], b)
  {
    LabelColumn(w, i, b, j);
    LabelChanged(w[42 + j], w[46 + j], w[2 + j], w[6 + j], Column(w[10..42], j, 8), w[i], b, (i - 2) % 4 == j);
  }

  function Mixed(c: bv8, x: bv8, b: bv8, hit: bool): bv8 { c ^ Delta(x, b, hit) }

  lemma LabelColumn(w: seq<bv8>, i: nat, b: bv8, j: nat)
    requires |w| == 50 && 10 <= i < 42 && j < 4
    ensures Column(w[i := b][10..42], j, 8) == Mixed(Column(w[10..42], j, 8), w[i], b, (i - 2) % 4 == j)
  {
    assert w[i := b][10..42] == w[10..42][i - 10 := b];
    ColumnChanged(w[10..42], i - 10, b, j, 8);
  }

  lemma SumFieldChanged(w: seq<bv8>, i: nat, b: bv8, j: nat)
    requires |w| == 50 && (2 <= i < 10 || 42 <= i < 50) && j < 4 && HeaderSumAt(w, j)
    ensures HeaderSumAt(w[i := b], j) <==> (i - 2) % 4 != j || SameBits(w[i], b)
  {
    assert w[i := b][10..42] == w[10..42];
    SumChanged(w[42 + j], w[46 + j], w[2 + j], w[6 + j], Column(w[10..42], j, 8), b);
  }

  /** Changing one of the four bytes behind a good checksum to b. */
  lemma SumChanged(odd: bv8, even: bv8, x: bv8, y: bv8, c: bv8, b: bv8)
    requires SumMatches(odd, even, x, y, c)
    ensures SumMatches(odd, even, b, y, c) <==> SameBits(x, b)
    ensures SumMatches(odd, even, x, b, c) <==> SameBits(y, b)
    ensures SumMatches(b, even, x, y, c) <==> SameBits(odd, b)
    ensures SumMatches(odd, b, x, y, c) <==> SameBits(even, b)
  {
    JoinedChanged(odd, even, b);
    InfoChanged(x, y, c, b);
  }

  lemma InfoChanged(x: bv8, y: bv8, c: bv8, b: bv8)
    ensures (b ^ y ^ c) & 0x55 == (x ^ y ^ c) & 0x55 <==> SameBits(x, b)
    ensures (x ^ b ^ c) & 0x55 == (x ^ y ^ c) & 0x55 <==> SameBits(y, b)
  {
  }

  lemma LabelChanged(odd: bv8, even: bv8, x: bv8, y: bv8, c: bv8, l: bv8, b: bv8, hit: bool)
    requires SumMatches(odd, even, x, y, c)
    ensures SumMatches(odd, even, x, y, Mixed(c, l, b, hit)) <==> !hit || SameBits(l, b)
  {
  }

  // ---------- a whole track ----------

  type Sectors = s: seq<Payload> | |s| == SECTOR_COUNT witness seq(SECTOR_COUNT, _ => Zeros())

  /** The first n sectors of a track, with the standard sync word. */
  function SectorStream(secs: Sectors, track: bv8, n: nat): (r: seq<bv8>)
    requires n <= SECTOR_COUNT
    ensures |r| == SECTOR_SIZE * n
  {
    if n == 0 then []
    else SectorStream(secs, track, n - 1) + EncodedSector(secs[n - 1], (n - 1) as bv8, track, SYNC_HIGH, SYNC_LOW)
  }

  function TrackStream(secs: Sectors, track: bv8): (r: seq<bv8>)
    ensures |r| == TRACK_SIZE
  {
    SectorStream(secs, track, SECTOR_COUNT) + Fill(GAP_SIZE)
  }

  /** What ReadTrack sends for a track that is read from its first sector to its last. */
  method SendTrack(secs: Sectors, track: bv8) returns (out: seq<bv8>)
    ensures out == TrackStream(secs, track) && |out| == TRACK_SIZE
  {
    out := [];
    for n := 0 to SECTOR_COUNT
      invariant out == SectorStream(secs, track, n)
    {
      var s := SendSector(secs[n], n as bv8, track, SYNC_HIGH, SYNC_LOW);
      out := out + s;
    }
    out := out + Fill(GAP_SIZE);
  }

  lemma {:induction false} SectorInStream(secs: Sectors, track: bv8, n: nat, k: nat)
    requires k < n <= SECTOR_COUNT
    ensures SectorStream(secs, track, n)[SECTOR_SIZE * k..SECTOR_SIZE * k + SECTOR_SIZE]
         == EncodedSector(secs[k], k as bv8, track, SYNC_HIGH, SYNC_LOW)
  {
    if k < n - 1 {
      SectorInStream(secs, track, n - 1, k);
      assert SectorStream(secs, track, n)[SECTOR_SIZE * k..SECTOR_SIZE * k + SECTOR_SIZE]
          == SectorStream(secs, track, n - 1)[SECTOR_SIZE * k..SECTOR_SIZE * k + SECTOR_SIZE];
    }
  }

  lemma SectorInTrack(secs: Sectors, track: bv8, k: nat)
    requires k < SECTOR_COUNT
    ensures TrackStream(secs, track)[SECTOR_SIZE * k..SECTOR_SIZE * k + SECTOR_SIZE]
         == EncodedSector(secs[k], k as bv8, track, SYNC_HIGH, SYNC_LOW)
  {
    SectorInStream(secs, track, SECTOR_COUNT, k);
  }

  /** The low byte of the sync word is sent as a sync word and nowhere else. */
  lemma SyncByteInSector(d: Payload, sector: bv8, track: bv8, i: nat)
    requires i < SECTOR_SIZE
    ensures EncodedSector(d, sector, track, SYNC_HIGH, SYNC_LOW)[i] == SYNC_LOW <==> i == 5 || i == 7
  {
    var e := EncodedSector(d, sector, track, SYNC_HIGH, SYNC_LOW);
    if i < 8 {
      assert e[i] == Preamble(SYNC_HIGH, SYNC_LOW)[i];
    } else if i < 56 {
      assert e[i] == HeaderField(sector, track)[i - 8];
      SyncByteInHeader(sector, track, i - 8);
    } else {
      assert e[i] == DataField(d)[i - 56];
      SyncByteInData(d, i - 56);
    }
  }

  lemma SyncByteInHeader(sector: bv8, track: bv8, i: nat)
    requires i < 48
    ensures HeaderField(sector, track)[i] != SYNC_LOW
  {
    var f := HeaderField(sector, track);
    if i < 8 {
      assert f[i] == Header(sector, track)[i];
      NoSyncByte(track);
      NoSyncByte(sector);
      NoSyncByte(11 - sector);
    } else if 40 <= i {
      assert f[i] == HeaderSum(sector, track)[i - 40];
      NoSyncSum(0x55, 0x55);
      NoSyncSum(Odd(track), Even(track));
      NoSyncSum(Odd(sector), Even(sector));
      NoSyncSum(Odd(11 - sector), Even(11 - sector));
    }
  }

  lemma SyncByteInData(d: Payload, i: nat)
    requires i < 1032
    ensures DataField(d)[i] != SYNC_LOW
  {
    var f := DataField(d);
    if i < 8 {
      assert f[i] == DataSum(d)[i];
      forall j | 0 <= j < 4 ensures Column(Folded(d), j, 128) | 0xAA != SYNC_LOW {
        NoSyncByte(Column(Folded(d), j, 128));
      }
    } else {
      var k := if i < 520 then i - 8 else i - 520;
      assert f[i] == if i < 520 then OddField(d)[k] else EvenField(d)[k];
      NoSyncByte(d[k]);
    }
  }

  lemma NoSyncByte(x: bv8)
    ensures Odd(x) != SYNC_LOW && Even(x) != SYNC_LOW && OddCode(x) != SYNC_LOW && EvenCode(x) != SYNC_LOW
    ensures x | 0xAA != SYNC_LOW
  {
  }

  lemma NoSyncSum(x: bv8, y: bv8)
    ensures SumByte(x, y) != SYNC_LOW
  {
  }

  predicate SyncAt(s: seq<bv8>, p: nat) {
    p + 1 < |s| && s[p] == SYNC_HIGH && s[p + 1] == SYNC_LOW
  }

  /** The stream of a track has its 22 sync words and no false one, at any alignment. */
  lemma NoFalseSync(secs: Sectors, track: bv8, p: nat)
    ensures SyncAt(TrackStream(secs, track), p) <==>
              p < SECTOR_COUNT * SECTOR_SIZE && (p % SECTOR_SIZE == 4 || p % SECTOR_SIZE == 6)
  {
    var s := TrackStream(secs, track);
    if p + 1 < |s| {
      SyncLowInTrack(secs, track, p + 1);
      if p < SECTOR_COUNT * SECTOR_SIZE && (p % SECTOR_SIZE == 4 || p % SECTOR_SIZE == 6) {
        ByteOfTrack(secs, track, p);
        SyncHighInSector(secs[p / SECTOR_SIZE], (p / SECTOR_SIZE) as bv8, track);
      }
    }
  }

  lemma SyncLowInTrack(secs: Sectors, track: bv8, q: nat)
    requires q < TRACK_SIZE
    ensures TrackStream(secs, track)[q] == SYNC_LOW <==>
              q < SECTOR_COUNT * SECTOR_SIZE && (q % SECTOR_SIZE == 5 || q % SECTOR_SIZE == 7)
  {
    if q < SECTOR_COUNT * SECTOR_SIZE {
      ByteOfTrack(secs, track, q);
      SyncByteInSector(secs[q / SECTOR_SIZE], (q / SECTOR_SIZE) as bv8, track, q % SECTOR_SIZE);
    } else {
      assert TrackStream(secs, track)[q] == Fill(GAP_SIZE)[q - SECTOR_COUNT * SECTOR_SIZE];
    }
  }

  lemma SyncHighInSector(d: Payload, sector: bv8, track: bv8)
    ensures var e := EncodedSector(d, sector, track, SYNC_HIGH, SYNC_LOW);
            e[4] == SYNC_HIGH && e[6] == SYNC_HIGH
  {
  }

  lemma ByteOfSlice(s: seq<bv8>, a: nat, b: nat, i: nat)
    requires a <= b <= |s| && i < b - a
    ensures s[a..b][i] == s[a + i]
  {
  }

  lemma ByteOfTrack(secs: Sectors, track: bv8, p: nat)
    requires p < SECTOR_COUNT * SECTOR_SIZE
    ensures TrackStream(secs, track)[p]
         == EncodedSector(secs[p / SECTOR_SIZE], (p / SECTOR_SIZE) as bv8, track, SYNC_HIGH, SYNC_LOW)[p % SECTOR_SIZE]
  {
    assert SECTOR_SIZE * (p / SECTOR_SIZE) + p % SECTOR_SIZE == p;
    ByteOfSector(secs, track, p / SECTOR_SIZE, p % SECTOR_SIZE);
  }

  lemma ByteOfSector(secs: Sectors, track: bv8, k: nat, i: nat)
    requires k < SECTOR_COUNT && i < SECTOR_SIZE
    ensures TrackStream(secs, track)[SECTOR_SIZE * k + i]
         == EncodedSector(secs[k], k as bv8, track, SYNC_HIGH, SYNC_LOW)[i]
  {
    SectorInTrack(secs, track, k);
    ByteOfSlice(TrackStream(secs, track), SECTOR_SIZE * k, SECTOR_SIZE * k + SECTOR_SIZE, i);
  }

  // ---------- the decoder ----------

  /** The next sync word FindSync stops at, or |s|. */
  function FirstSync(s: seq<bv8>, p: nat): (r: nat)
    ensures r == |s| || (p <= r && SyncAt(s, r))
    decreases |s| - p
  {
    if p + 1 >= |s| then |s| else if SyncAt(s, p) then p else FirstSync(s, p + 2)
  }

  lemma {:induction false} FirstSyncIs(s: seq<bv8>, p: nat, q: nat)
    requires p <= q && (q - p) % 2 == 0 && forall r {:trigger SyncAt(s, r)} :: p <= r < q ==> !SyncAt(s, r)
    requires SyncAt(s, q) || |s| <= q + 1
    ensures FirstSync(s, p) == if SyncAt(s, q) then q else |s|
    decreases q - p
  {
    if p < q && p + 1 < |s| { FirstSyncIs(s, p + 2, q); }
  }

  /** How much of a header the decoder reads: the second sync word, with it the eight info bytes, or
      all of it. */
  function HeaderRead(error: nat): (n: nat)
    ensures n in {2, 2 + 8, 2 + 48} && (n == 2 <==> error == 21) && (n == 10 <==> error in {22, 23, 24, 25})
  {
    if error == 21 then 2 else if 22 <= error <= 25 then 10 else 50
  }

  /** The write FIFO.  The whole transfer is in it and its DMA has ended, so a poll reports every
      remaining word, as far as the 14-bit count reaches. */
  class Fifo {
    const input: seq<bv8>
    const writing: bool          // CMD_WRTRK
    const head: bv8              // track number the FPGA reports
    const buffer: array<bv8>     // sector_buffer
    var pos: nat
    var error: nat

    constructor (bytes: seq<bv8>, active: bool, at: bv8)
      ensures Valid() && input == bytes && writing == active && head == at && pos == 0 && fresh(buffer)
    {
      input, writing, head := bytes, active, at;
      buffer := new bv8[DATA];
      pos, error := 0, 0;
    }

    ghost predicate Valid()
      reads this`pos
    {
      pos <= |input| && buffer.Length == DATA
    }

    function Words(): (n: nat)
      requires pos <= |input|
      reads this`pos
    {
      if (|input| - pos) / 2 < 0x3FFF then (|input| - pos) / 2 else 0x3FFF
    }

    method FindSync(track: bv8) returns (ok: bool)
      requires Valid()
      modifies this`pos
      ensures Valid() && old(pos) <= pos
      ensures ok <==> writing && head == track && FirstSync(input, old(pos)) < |input|
      ensures ok ==> pos == FirstSync(input, old(pos)) + 2
    {
      while true
        invariant Valid() && old(pos) <= pos && FirstSync(input, pos) == FirstSync(input, old(pos))
        decreases |input| - pos
      {
        if !writing || head != track || Words() == 0 { return false; }
        var n := Words();
        ghost var from, all := pos, n;
        while n > 0
          invariant Valid() && n <= all && pos == from + 2 * (all - n)
          invariant FirstSync(input, pos) == FirstSync(input, old(pos))
        {
          var c3, c4 := input[pos], input[pos + 1];
          pos := pos + 2;
          if c3 == SYNC_HIGH && c4 == SYNC_LOW { return true; }
          n := n - 1;
        }
      }
    }

    /** GetHeader, called behind a first sync word. */
    method GetHeader() returns (ok: bool, track: bv8, sector: bv8)
      requires Valid()
      modifies this`pos, this`error
      ensures Valid() && ok == (writing && error == 0)
      ensures !writing ==> error == 0 && pos == old(pos)
      ensures writing && old(Words()) <= 24 ==> error == 20 && pos == old(pos)
      ensures writing && old(Words()) > 24 ==>
                var w := input[old(pos)..old(pos) + 50];
                && error == HeaderError(w) && pos == old(pos) + HeaderRead(error)
                && (ok ==> track == Joined(w[3], w[7]) && sector == Joined(w[4], w[8]))
    {
      error, ok, track, sector := 0, false, 0, 0;
      if !writing { return; }
      if Words() <= 24 {
        error := 20;
        return;
      }
      var w := input[pos..pos + 50];
      if w[0] != SYNC_HIGH || w[1] != SYNC_LOW {
        error, pos := 21, pos + 2;
        return;
      }
      var c1, c2, c3, c4 := Joined(w[2], w[6]), Joined(w[3], w[7]), Joined(w[4], w[8]), Joined(w[5], w[9]);
      if c1 != 0xFF {
        error := 22;
      } else if c2 > 159 {
        error := 23;
      } else if c3 > 10 {
        error := 24;
      } else if c4 > 11 || c4 == 0 {
        error := 25;
      }
      if error != 0 {
        pos := pos + 10;
        return;
      }
      track, sector := c2, c3;
      ok := HeaderSumGood(w);
      error, pos := if ok then 0 else 26, pos + 50;
    }

    /** The end of GetHeader: the label is read into the checksum, which is compared. */
    method HeaderSumGood(w: seq<bv8>) returns (ok: bool)
      requires |w| == 50
      ensures ok == (HeaderSumAt(w, 0) && HeaderSumAt(w, 1) && HeaderSumAt(w, 2) && HeaderSumAt(w, 3))
    {
      var s := w[10..42];
      var f0, f1, f2, f3 := 0, 0, 0, 0;
      for i := 0 to 8
        invariant f0 == Column(s, 0, i) && f1 == Column(s, 1, i) && f2 == Column(s, 2, i) && f3 == Column(s, 3, i)
      {
        f0, f1, f2, f3 := f0 ^ s[4 * i], f1 ^ s[4 * i + 1], f2 ^ s[4 * i + 2], f3 ^ s[4 * i + 3];
      }
      ok := SumMatches(w[42], w[46], w[2], w[6], f0) && SumMatches(w[43], w[47], w[3], w[7], f1)
            && SumMatches(w[44], w[48], w[4], w[8], f2) && SumMatches(w[45], w[49], w[5], w[9], f3);
    }

    /** GetData: the data goes to the sector buffer whether or not its checksum is right. */
    method GetData() returns (ok: bool)
      requires Valid()
      modifies this`pos, this`error, buffer
      ensures Valid() && ok == (writing && error == 0)
      ensures !writing ==> error == 0 && pos == old(pos)
      ensures writing && old(Words()) < 0x204 ==> error == 28 && pos == old(pos)
      ensures writing && old(Words()) >= 0x204 ==>
                var w := input[old(pos)..old(pos) + 1032];
                && pos == old(pos) + 1032 && (ok <==> DataAccepted(w)) && (!ok ==> error == 29)
                && buffer[..] == DataDecoded(w)
    {
      error, ok := 0, false;
      if !writing { return; }
      if Words() < 0x204 {
        error := 28;
        return;
      }
      var w := input[pos..pos + 1032];
      var c0, c1, c2, c3 := Deinterleave(w);
      pos := pos + 1032;
      ok := Joined(w[0], w[4]) == c0 && Joined(w[1], w[5]) == c1
         && Joined(w[2], w[6]) == c2 && Joined(w[3], w[7]) == c3;
      FourSums(w);
      if !ok { error := 29; }
    }

    /** The two loops of GetData over the data field. */
    method Deinterleave(w: seq<bv8>) returns (c0: bv8, c1: bv8, c2: bv8, c3: bv8)
      requires |w| == 1032 && buffer.Length == DATA
      modifies buffer
      ensures buffer[..] == DataDecoded(w)
      ensures c0 == DataColumn(w, 0) && c1 == DataColumn(w, 1) && c2 == DataColumn(w, 2) && c3 == DataColumn(w, 3)
    {
      var a0, a1, a2, a3 := TakeOdd(w[8..520]);
      var b0, b1, b2, b3 := TakeEven(w[520..]);
      c0, c1, c2, c3 := (a0 ^ b0) & 0x55, (a1 ^ b1) & 0x55, (a2 ^ b2) & 0x55, (a3 ^ b3) & 0x55;
    }

    method PutFour(p: nat, x0: bv8, x1: bv8, x2: bv8, x3: bv8)
      requires p + 4 <= buffer.Length
      modifies buffer
      ensures buffer[p] == x0 && buffer[p + 1] == x1 && buffer[p + 2] == x2 && buffer[p + 3] == x3
      ensures forall i :: 0 <= i < buffer.Length && !(p <= i < p + 4) ==> buffer[i] == old(buffer[i])
    {
      buffer[p] := x0;
      buffer[p + 1] := x1;
      buffer[p + 2] := x2;
      buffer[p + 3] := x3;
    }

    method TakeOdd(s: seq<bv8>) returns (c0: bv8, c1: bv8, c2: bv8, c3: bv8)
      requires |s| == DATA && buffer.Length == DATA
      modifies buffer
      ensures forall i :: 0 <= i < DATA ==> buffer[i] == OddPart(s[i])
      ensures c0 == Column(s, 0, 128) && c1 == Column(s, 1, 128) && c2 == Column(s, 2, 128) && c3 == Column(s, 3, 128)
    {
      c0, c1, c2, c3 := 0, 0, 0, 0;
      for k := 0 to 128
        invariant forall i :: 0 <= i < 4 * k ==> buffer[i] == OddPart(s[i])
        invariant c0 == Column(s, 0, k) && c1 == Column(s, 1, k) && c2 == Column(s, 2, k) && c3 == Column(s, 3, k)
      {
        var p := 4 * k;
        c0, c1, c2, c3 := c0 ^ s[p], c1 ^ s[p + 1], c2 ^ s[p + 2], c3 ^ s[p + 3];
        PutFour(p, OddPart(s[p]), OddPart(s[p + 1]), OddPart(s[p + 2]), OddPart(s[p + 3]));
      }
    }

    method TakeEven(s: seq<bv8>) returns (c0: bv8, c1: bv8, c2: bv8, c3: bv8)
      requires |s| == DATA && buffer.Length == DATA
      modifies buffer
      ensures forall i :: 0 <= i < DATA ==> buffer[i] == Merged(old(buffer[i]), s[i])
      ensures c0 == Column(s, 0, 128) && c1 == Column(s, 1, 128) && c2 == Column(s, 2, 128) && c3 == Column(s, 3, 128)
    {
      c0, c1, c2, c3 := 0, 0, 0, 0;
      for k := 0 to 128
        invariant forall i :: 0 <= i < 4 * k ==> buffer[i] == Merged(old(buffer[i]), s[i])
        invariant forall i :: 4 * k <= i < DATA ==> buffer[i] == old(buffer[i])
        invariant c0 == Column(s, 0, k) && c1 == Column(s, 1, k) && c2 == Column(s, 2, k) && c3 == Column(s, 3, k)
      {
        var p := 4 * k;
        c0, c1, c2, c3 := c0 ^ s[p], c1 ^ s[p + 1], c2 ^ s[p + 2], c3 ^ s[p + 3];
        PutFour(p, Merged(buffer[p], s[p]), Merged(buffer[p + 1], s[p + 1]), Merged(buffer[p + 2], s[p + 2]),
                Merged(buffer[p + 3], s[p + 3]));
      }
    }
  }

  // ---------- the round trip of a track ----------

  datatype Received = Received(track: bv8, sector: bv8, data: Payload)

  ghost predicate AllReceived(got: seq<Received>, secs: Sectors, track: bv8) {
    |got| <= SECTOR_COUNT && forall k :: 0 <= k < |got| ==> got[k] == Received(track, k as bv8, secs[k])
  }

  /** Repeated FindSync, GetHeader, GetData over the stream of a track recovers every sector. */
  method ReceiveTrack(fifo: Fifo, ghost secs: Sectors, track: bv8) returns (got: seq<Received>)
    requires fifo.Valid() && fifo.pos == 0 && fifo.input == TrackStream(secs, track)
    requires fifo.writing && fifo.head == track <= 159
    modifies fifo`pos, fifo`error, fifo.buffer
    ensures |got| == SECTOR_COUNT && AllReceived(got, secs, track)
  {
    got := [];
    SyncNext(secs, track, 0);
    var found := fifo.FindSync(track);
    while found
      invariant fifo.Valid() && AllReceived(got, secs, track) && found == (|got| < SECTOR_COUNT)
      invariant found ==> fifo.pos == SECTOR_SIZE * |got| + 6
      decreases SECTOR_COUNT - |got|
    {
      var ok, r := ReceiveSector(fifo, secs, track, |got|);
      if ok { got := got + [r]; }
      SyncNext(secs, track, |got|);
      found := fifo.FindSync(track);
    }
  }

  /** GetHeader and GetData behind the sync word of sector k. */
  method ReceiveSector(fifo: Fifo, ghost secs: Sectors, track: bv8, ghost k: nat) returns (ok: bool, r: Received)
    requires fifo.Valid() && k < SECTOR_COUNT && fifo.pos == SECTOR_SIZE * k + 6
    requires fifo.input == TrackStream(secs, track) && fifo.writing && track <= 159
    modifies fifo`pos, fifo`error, fifo.buffer
    ensures fifo.Valid() && ok && r == Received(track, k as bv8, secs[k]) && fifo.pos == SECTOR_SIZE * (k + 1)
    ensures fifo.error == 0
  {
    SectorDecodes(secs, track, k);
    r := Received(0, 0, Zeros());
    var t, n;
    ok, t, n := fifo.GetHeader();
    if ok {
      ok := fifo.GetData();
      if ok { r := Received(t, n, fifo.buffer[..]); }
    }
  }

  /** Header bytes h and data bytes f decode to one sector. */
  predicate Decodes(h: seq<bv8>, f: seq<bv8>, sector: bv8, track: bv8, d: Payload) {
    && |h| == 50 && |f| == 1032
    && HeaderError(h) == 0 && Joined(h[3], h[7]) == track && Joined(h[4], h[8]) == sector
    && DataAccepted(f) && DataDecoded(f) == d
  }

  /** What the decoder finds behind the sync word of sector number k. */
  lemma SectorDecodes(secs: Sectors, track: bv8, k: nat)
    requires k < SECTOR_COUNT && track <= 159
    ensures var s, p := TrackStream(secs, track), SECTOR_SIZE * k;
            Decodes(s[p + 6..p + 56], s[p + 56..p + 1088], k as bv8, track, secs[k])
  {
    SectorInTrack(secs, track, k);
    SmallNumber(k);
    SectorFields(TrackStream(secs, track), SECTOR_SIZE * k, secs[k], k as bv8, track);
  }

  lemma SmallNumber(k: nat)
    requires k < SECTOR_COUNT
    ensures k as bv8 <= 10 && (k as bv8) as int == k
  {
  }

  lemma SyncNext(secs: Sectors, track: bv8, k: nat)
    requires k <= SECTOR_COUNT
    ensures var s, p := TrackStream(secs, track), SECTOR_SIZE * k;
            FirstSync(s, p) == if k == SECTOR_COUNT then |s| else p + 4
  {
    var s, p := TrackStream(secs, track), SECTOR_SIZE * k;
    var q := if k == SECTOR_COUNT then |s| else p + 4;
    forall r {:trigger SyncAt(s, r)} | p <= r <= q
      ensures SyncAt(s, r) <==> r == p + 4 && k < SECTOR_COUNT
    {
      NoFalseSync(secs, track, r);
    }
    FirstSyncIs(s, p, q);
  }

  lemma Subslice(s: seq<bv8>, p: nat, n: nat, a: nat, b: nat)
    requires a <= b <= n && p + n <= |s|
    ensures s[p..p + n][a..b] == s[p + a..p + b]
  {
    var t := s[p..p + n];
    forall k | 0 <= k < b - a
      ensures t[a..b][k] == s[p + a..p + b][k]
    {
      assert t[a + k] == s[p + a + k];
    }
  }

  lemma SectorFields(s: seq<bv8>, p: nat, d: Payload, sector: bv8, track: bv8)
    requires p + SECTOR_SIZE <= |s| && sector <= 10 && track <= 159
    requires s[p..p + SECTOR_SIZE] == EncodedSector(d, sector, track, SYNC_HIGH, SYNC_LOW)
    ensures Decodes(s[p + 6..p + 56], s[p + 56..p + 1088], sector, track, d)
  {
    var e := s[p..p + SECTOR_SIZE];
    Subslice(s, p, SECTOR_SIZE, 6, 56);
    Subslice(s, p, SECTOR_SIZE, 56, 1088);
    EncodedParts(e, d, sector, track, SYNC_HIGH, SYNC_LOW);
    HeaderRoundTrip(sector, track);
    DataRoundTrip(d);
  }

  lemma EncodedParts(e: seq<bv8>, d: Payload, sector: bv8, track: bv8, high: bv8, low: bv8)
    requires e == EncodedSector(d, sector, track, high, low)
    ensures e[0..8] == Preamble(high, low) && e[8..56] == HeaderField(sector, track) && e[56..1088] == DataField(d)
    ensures e[6..56] == [high, low] + HeaderField(sector, track)
  {
  }

  // ---------- one damaged byte ----------

  /** At p stands sector number k of track `head`, with byte o replaced by b. */
  predicate Damaged(s: seq<bv8>, p: nat, d: Payload, k: nat, head: bv8, o: nat, b: bv8) {
    && k < SECTOR_COUNT && head <= 159 && o < SECTOR_SIZE && p + SECTOR_SIZE <= |s|
    && s[p..p + SECTOR_SIZE] == EncodedSector(d, k as bv8, head, SYNC_HIGH, SYNC_LOW)[o := b]
  }

  /** Replacing byte o, x, of a sector by b changes nothing that the decoder looks at. */
  predicate Harmless(o: nat, x: bv8, b: bv8) {
    o < 4 || if o < 8 then x == b else SameBits(x, b)
  }

  function Sent(d: Payload, k: nat, head: bv8, o: nat): bv8
    requires k < SECTOR_COUNT && o < SECTOR_SIZE
  {
    EncodedSector(d, k as bv8, head, SYNC_HIGH, SYNC_LOW)[o]
  }

  lemma DamagedByte(s: seq<bv8>, p: nat, d: Payload, k: nat, head: bv8, o: nat, b: bv8, r: nat)
    requires Damaged(s, p, d, k, head, o, b) && r < SECTOR_SIZE
    ensures s[p + r] == if r == o then b else Sent(d, k, head, r)
  {
    assert s[p + r] == s[p..p + SECTOR_SIZE][r];
  }

  /** No word behind the sync words begins with the first byte of one. */
  lemma NoSyncHigh(d: Payload, k: nat, head: bv8, r: nat)
    requires k < SECTOR_COUNT && 8 <= r < SECTOR_SIZE && r % 2 == 0
    ensures Sent(d, k, head, r) != SYNC_HIGH
  {
    var e := EncodedSector(d, k as bv8, head, SYNC_HIGH, SYNC_LOW);
    if r < 56 {
      assert e[r] == HeaderField(k as bv8, head)[r - 8];
      NoSyncHighInHeader(k as bv8, head, r - 8);
    } else {
      assert e[r] == DataField(d)[r - 56];
      NoSyncHighInData(d, r - 56);
    }
  }

  lemma NoSyncHighInHeader(sector: bv8, track: bv8, i: nat)
    requires sector <= 10 && i < 48 && i % 2 == 0
    ensures HeaderField(sector, track)[i] != SYNC_HIGH
  {
    var f := HeaderField(sector, track);
    SmallNoSyncHigh(sector);
    if i < 8 {
      assert f[i] == Header(sector, track)[i];
    } else if 40 <= i {
      assert f[i] == HeaderSum(sector, track)[i - 40];
      MaskedNoSyncHigh(0x55 ^ 0x55);
      MaskedNoSyncHigh(Odd(sector) ^ Even(sector));
    }
  }

  lemma NoSyncHighInData(d: Payload, i: nat)
    requires i < 1032
    ensures DataField(d)[i] != SYNC_HIGH
  {
    var f := DataField(d);
    if i < 8 {
      assert f[i] == DataSum(d)[i];
      forall j | 0 <= j < 4 ensures Column(Folded(d), j, 128) | 0xAA != SYNC_HIGH {
        MaskedNoSyncHigh(Column(Folded(d), j, 128));
      }
    } else {
      var k := if i < 520 then i - 8 else i - 520;
      assert f[i] == if i < 520 then OddField(d)[k] else EvenField(d)[k];
      MaskedNoSyncHigh(d[k] >> 1);
      MaskedNoSyncHigh(d[k]);
    }
  }

  lemma SmallNoSyncHigh(x: bv8)
    requires x <= 10
    ensures Odd(x) != SYNC_HIGH && Even(x) != SYNC_HIGH
  {
  }

  lemma MaskedNoSyncHigh(x: bv8)
    ensures x | 0xAA != SYNC_HIGH
  {
  }

  /** Damage in one byte makes no false sync word behind the real ones. */
  lemma NoSyncBehind(s: seq<bv8>, p: nat, d: Payload, k: nat, head: bv8, o: nat, b: bv8, r: nat)
    requires Damaged(s, p, d, k, head, o, b) && 8 <= r < SECTOR_SIZE && r % 2 == 0
    ensures !SyncAt(s, p + r)
  {
    if r == o {
      DamagedByte(s, p, d, k, head, o, b, r + 1);
      SyncByteInSector(d, k as bv8, head, r + 1);
    } else {
      DamagedByte(s, p, d, k, head, o, b, r);
      NoSyncHigh(d, k, head, r);
    }
  }

  /** A decoder that gave the sector up goes on with the next one. */
  lemma {:induction false} RestSkipped(s: seq<bv8>, p: nat, d: Payload, k: nat, head: bv8, o: nat, b: bv8, from: nat)
    requires Damaged(s, p, d, k, head, o, b) && 8 <= from <= SECTOR_SIZE && from % 2 == 0
    ensures FirstSync(s, p + from) == FirstSync(s, p + SECTOR_SIZE)
    decreases SECTOR_SIZE - from
  {
    if from < SECTOR_SIZE {
      NoSyncBehind(s, p, d, k, head, o, b, from);
      RestSkipped(s, p, d, k, head, o, b, from + 2);
    }
  }

  /** The sync word that is found: the first one, or the second if the first is damaged. */
  lemma SyncFound(s: seq<bv8>, p: nat, d: Payload, k: nat, head: bv8, o: nat, b: bv8)
    requires Damaged(s, p, d, k, head, o, b)
    ensures FirstSync(s, p) == if (o == 4 || o == 5) && !Harmless(o, Sent(d, k, head, o), b) then p + 6 else p + 4
  {
    Subslice(s, p, SECTOR_SIZE, 0, 8);
    var e := EncodedSector(d, k as bv8, head, SYNC_HIGH, SYNC_LOW);
    SliceUpdated(e, o, b, 0, 8);
    EncodedParts(e, d, k as bv8, head, SYNC_HIGH, SYNC_LOW);
    SyncInPreamble(s, p, o, b);
  }

  lemma SyncInPreamble(s: seq<bv8>, p: nat, o: nat, b: bv8)
    requires p + 8 <= |s|
    requires var e := Preamble(SYNC_HIGH, SYNC_LOW); s[p..p + 8] == if o < 8 then e[o := b] else e
    ensures FirstSync(s, p) == if (o == 4 && b != SYNC_HIGH) || (o == 5 && b != SYNC_LOW) then p + 6 else p + 4
  {
    var e := s[p..p + 8];
    assert s[p] == e[0] && s[p + 1] == e[1] && s[p + 2] == e[2] && s[p + 3] == e[3];
    assert s[p + 4] == e[4] && s[p + 5] == e[5] && s[p + 6] == e[6] && s[p + 7] == e[7];
    assert !SyncAt(s, p) && !SyncAt(s, p + 2);
    assert FirstSync(s, p) == FirstSync(s, p + 2) == FirstSync(s, p + 4);
    assert !SyncAt(s, p + 4) ==> SyncAt(s, p + 6) && FirstSync(s, p + 4) == FirstSync(s, p + 6);
  }

  /** Its header is good exactly if no bit of it is damaged that the decoder looks at. */
  lemma DamagedHeader(s: seq<bv8>, p: nat, d: Payload, k: nat, head: bv8, o: nat, b: bv8)
    requires Damaged(s, p, d, k, head, o, b)
    ensures var w := s[p + 6..p + 56];
            && (HeaderError(w) == 0 <==> o < 6 || 56 <= o || Harmless(o, Sent(d, k, head, o), b))
            && (HeaderError(w) == 0 ==> Joined(w[3], w[7]) == head && Joined(w[4], w[8]) == k as bv8)
  {
    Subslice(s, p, SECTOR_SIZE, 6, 56);
    DamagedHeaderBytes(d, k, head, o, b);
  }

  lemma DamagedHeaderBytes(d: Payload, k: nat, head: bv8, o: nat, b: bv8)
    requires k < SECTOR_COUNT && head <= 159 && o < SECTOR_SIZE
    ensures var w := EncodedSector(d, k as bv8, head, SYNC_HIGH, SYNC_LOW)[o := b][6..56];
            && (HeaderError(w) == 0 <==> o < 6 || 56 <= o || Harmless(o, Sent(d, k, head, o), b))
            && (HeaderError(w) == 0 ==> Joined(w[3], w[7]) == head && Joined(w[4], w[8]) == k as bv8)
  {
    var e := EncodedSector(d, k as bv8, head, SYNC_HIGH, SYNC_LOW);
    var w := e[6..56];
    EncodedParts(e, d, k as bv8, head, SYNC_HIGH, SYNC_LOW);
    HeaderRoundTrip(k as bv8, head);
    SliceUpdated(e, o, b, 6, 56);
    DamagedWindow(k, head, o, b);
  }

  lemma DamagedWindow(k: nat, head: bv8, o: nat, b: bv8)
    requires k < SECTOR_COUNT && head <= 159
    ensures var w := [SYNC_HIGH, SYNC_LOW] + HeaderField(k as bv8, head);
            var v := if 6 <= o < 56 then w[o - 6 := b] else w;
            && (HeaderError(v) == 0 <==> !(6 <= o < 56) || Harmless(o, w[o - 6], b))
            && (HeaderError(v) == 0 ==> Joined(v[3], v[7]) == head && Joined(v[4], v[8]) == k as bv8)
  {
    var w := [SYNC_HIGH, SYNC_LOW] + HeaderField(k as bv8, head);
    SmallNumber(k);
    HeaderRoundTrip(k as bv8, head);
    if 8 <= o < 56 {
      HeaderByteDetected(w, o - 6, b);
    } else if 6 <= o < 8 {
      SyncByteDamaged(w, o - 6, b);
    }
  }

  lemma SliceUpdated(e: seq<bv8>, o: nat, b: bv8, from: nat, to: nat)
    requires o < |e| && from <= to <= |e|
    ensures e[o := b][from..to] == if from <= o < to then e[from..to][o - from := b] else e[from..to]
    ensures from <= o < to ==> e[from..to][o - from] == e[o]
  {
  }

  lemma SyncByteDamaged(w: seq<bv8>, i: nat, b: bv8)
    requires |w| == 50 && i < 2 && HeaderError(w) == 0
    ensures b == w[i] ==> w[i := b] == w
    ensures b != w[i] ==> HeaderError(w[i := b]) == 21
  {
  }

  /** The same of its data. */
  lemma DamagedData(s: seq<bv8>, p: nat, d: Payload, k: nat, head: bv8, o: nat, b: bv8)
    requires Damaged(s, p, d, k, head, o, b)
    ensures var w := s[p + 56..p + 1088];
            && (DataAccepted(w) <==> o < 56 || Harmless(o, Sent(d, k, head, o), b))
            && (DataAccepted(w) ==> DataDecoded(w) == d)
  {
    Subslice(s, p, SECTOR_SIZE, 56, 1088);
    DamagedDataBytes(d, k, head, o, b);
  }

  lemma DamagedDataBytes(d: Payload, k: nat, head: bv8, o: nat, b: bv8)
    requires k < SECTOR_COUNT && o < SECTOR_SIZE
    ensures var w := EncodedSector(d, k as bv8, head, SYNC_HIGH, SYNC_LOW)[o := b][56..1088];
            && (DataAccepted(w) <==> o < 56 || Harmless(o, Sent(d, k, head, o), b))
            && (DataAccepted(w) ==> DataDecoded(w) == d)
  {
    var e := EncodedSector(d, k as bv8, head, SYNC_HIGH, SYNC_LOW);
    EncodedParts(e, d, k as bv8, head, SYNC_HIGH, SYNC_LOW);
    SliceUpdated(e, o, b, 56, 1088);
    DamagedField(d, o, b);
  }

  lemma DamagedField(d: Payload, o: nat, b: bv8)
    requires o < SECTOR_SIZE
    ensures var w := DataField(d);
            var v := if o < 56 then w else w[o - 56 := b];
            && (DataAccepted(v) <==> o < 56 || SameBits(w[o - 56], b))
            && (DataAccepted(v) ==> DataDecoded(v) == d)
  {
    var w := DataField(d);
    DataRoundTrip(d);
    if 56 <= o {
      OneByteDetected(w, o - 56, b);
      if SameBits(w[o - 56], b) { DecodedSame(w, o - 56, b); }
    }
  }

  /** Where byte i of a track is replaced, and what the other sectors are. */
  lemma SectorDamaged(secs: Sectors, head: bv8, k: nat, i: nat, b: bv8)
    requires k < SECTOR_COUNT && head <= 159 && i < TRACK_SIZE && k == i / SECTOR_SIZE
    ensures Damaged(TrackStream(secs, head)[i := b], SECTOR_SIZE * k, secs[k], k, head, i % SECTOR_SIZE, b)
  {
    var s, p := TrackStream(secs, head), SECTOR_SIZE * k;
    SectorInTrack(secs, head, k);
    SliceUpdated(s, i, b, p, p + SECTOR_SIZE);
  }

  lemma SectorUndamaged(secs: Sectors, head: bv8, k: nat, i: nat, b: bv8)
    requires k < SECTOR_COUNT && head <= 159 && i < TRACK_SIZE && k != i / SECTOR_SIZE
    ensures Damaged(TrackStream(secs, head)[i := b], SECTOR_SIZE * k, secs[k], k, head, 0, 0xAA)
  {
    var s, p := TrackStream(secs, head), SECTOR_SIZE * k;
    SectorInTrack(secs, head, k);
    SliceUpdated(s, i, b, p, p + SECTOR_SIZE);
    var e := EncodedSector(secs[k], k as bv8, head, SYNC_HIGH, SYNC_LOW);
    assert e[0] == Preamble(SYNC_HIGH, SYNC_LOW)[0];
    assert e[0 := 0xAA] == e;
  }

  lemma GapHasNoSync(secs: Sectors, head: bv8, i: nat, b: bv8)
    requires i < TRACK_SIZE
    ensures var s := TrackStream(secs, head)[i := b]; FirstSync(s, SECTOR_SIZE * SECTOR_COUNT) == |s|
  {
    GapSkipped(secs, head, i, b, SECTOR_SIZE * SECTOR_COUNT);
  }

  lemma {:induction false} GapSkipped(secs: Sectors, head: bv8, i: nat, b: bv8, p: nat)
    requires i < TRACK_SIZE && SECTOR_SIZE * SECTOR_COUNT <= p <= TRACK_SIZE
    ensures var s := TrackStream(secs, head)[i := b]; FirstSync(s, p) == |s|
    decreases TRACK_SIZE - p
  {
    if p + 1 < TRACK_SIZE {
      GapBytes(secs, head, p);
      GapSkipped(secs, head, i, b, p + 2);
    }
  }

  lemma GapBytes(secs: Sectors, head: bv8, r: nat)
    requires SECTOR_SIZE * SECTOR_COUNT <= r < TRACK_SIZE - 1
    ensures TrackStream(secs, head)[r] == TrackStream(secs, head)[r + 1] == 0xAA
  {
    var from := SECTOR_SIZE * SECTOR_COUNT;
    assert TrackStream(secs, head)[r] == Fill(GAP_SIZE)[r - from];
    assert TrackStream(secs, head)[r + 1] == Fill(GAP_SIZE)[r + 1 - from];
  }
}
