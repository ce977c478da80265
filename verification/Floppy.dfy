/** Amiga floppy drives over image files: the track cache, ReadTrack and WriteTrack. */
module Floppy {
  import opened Words
  import opened Chains
  import opened Disks
  import opened FatVolume
  import T = TrackCodec

  const SECTORS: nat := 11
  const MAX_TRACKS: nat := 166

  /** adfTYPE. */
  class Drive {
    const cache: array<nat>
    var writable: bool
    var tracks: nat
    var clusterOffset: nat
    var sectorOffset: nat
    var track: nat
    var trackPrev: nat

    constructor ()
      ensures cache.Length == MAX_TRACKS && fresh(cache)
    {
      cache := new nat[MAX_TRACKS];
      writable := false;
      tracks, clusterOffset, sectorOffset, track, trackPrev := 0, 0, 0, 0, 0;
    }

    /** The cache holds the first cluster of every track of the image on chain c. */
    ghost predicate Inserted(g: Geometry, c: Chain)
      reads this`tracks, cache
    {
      && g.clusterSize > 0 && cache.Length == MAX_TRACKS
      && 0 < tracks <= MAX_TRACKS && SECTORS * tracks <= Capacity(g, c)
      && forall t {:trigger cache[t]} :: 0 <= t < tracks ==> Located(g, c, SECTORS * t, cache[t])
    }

    /** The saved position is that of a sector of track t. */
    ghost predicate Saved(g: Geometry, c: Chain, t: nat)
      reads this`sectorOffset, this`clusterOffset
    {
      g.clusterSize > 0 && sectorOffset < SECTORS && Located(g, c, SECTORS * t + sectorOffset, clusterOffset)
    }

    /** If the next read continues a track, the saved position is the one it needs. */
    ghost predicate Resumable(g: Geometry, c: Chain, t: nat)
      reads this`sectorOffset, this`clusterOffset, this`trackPrev
    {
      trackPrev == t ==> Saved(g, c, t)
    }

    ghost predicate AllResumable(g: Geometry, c: Chain)
      reads this`sectorOffset, this`clusterOffset, this`trackPrev, this`tracks
    {
      forall t {:trigger Resumable(g, c, t)} :: 0 <= t < tracks ==> Resumable(g, c, t)
    }

    /** InsertFloppy, for the file FileOpen left in `file`. */
    method InsertFloppy(vol: Volume, file: FileHandle, ghost c: Chain)
      requires vol.Valid() && vol.Owns(c) && file.On(vol.g, c) && file.sector == 0 && cache.Length == MAX_TRACKS
      requires SECTORS * 512 <= file.size <= 512 * Capacity(vol.g, c)
      modifies this`tracks, this`writable, this`clusterOffset, this`sectorOffset, this`track, this`trackPrev, cache
      modifies file`sector, file`cluster, vol`bufferedFatIndex, vol.fatBuffer
      ensures vol.Valid() && Inserted(vol.g, c) && AllResumable(vol.g, c)
      ensures tracks == if file.size / (512 * 11) < MAX_TRACKS then file.size / (512 * 11) else MAX_TRACKS
      ensures writable == (file.attributes % 2 == 0) && track == 0 && trackPrev == 0xFF && Saved(vol.g, c, 0)
    {
      tracks := file.size / (512 * 11);
      if tracks > MAX_TRACKS { tracks := MAX_TRACKS; }
      FillCache(vol, file, c);
      writable := file.attributes % 2 == 0;     // ATTR_READONLY
      clusterOffset, sectorOffset, track, trackPrev := cache[0], 0, 0, 0xFF;
    }

    /** The loop of InsertFloppy. */
    method FillCache(vol: Volume, file: FileHandle, ghost c: Chain)
      requires vol.Valid() && vol.Owns(c) && file.On(vol.g, c) && file.sector == 0
      requires cache.Length == MAX_TRACKS && 0 < tracks <= MAX_TRACKS && SECTORS * tracks <= Capacity(vol.g, c)
      modifies cache, file`sector, file`cluster, vol`bufferedFatIndex, vol.fatBuffer
      ensures vol.Valid() && Inserted(vol.g, c)
    {
      for i := 0 to tracks
        invariant vol.Valid() && file.sector == SECTORS * i && (i < tracks ==> file.On(vol.g, c))
        invariant forall t {:trigger cache[t]} :: 0 <= t < i ==> Located(vol.g, c, SECTORS * t, cache[t])
      {
        cache[i] := file.cluster;
        Skip(vol, file, SECTORS, c);
      }
    }
  }

  /** `cluster` is where sector n of the file on chain c starts its cluster. */
  ghost predicate Located(g: Geometry, c: Chain, n: nat, cluster: nat)
    requires g.clusterSize > 0
  {
    n / g.clusterSize < |c| && cluster == c[n / g.clusterSize]
  }

  /** A run of FileNextSector calls. */
  method Skip(vol: Volume, file: FileHandle, n: nat, ghost c: Chain)
    requires vol.Valid() && vol.Owns(c) && file.On(vol.g, c) && file.sector + n <= Capacity(vol.g, c)
    modifies file`sector, file`cluster, vol`bufferedFatIndex, vol.fatBuffer
    ensures vol.Valid() && file.sector == old(file.sector) + n
    ensures file.sector < Capacity(vol.g, c) ==> file.On(vol.g, c)
  {
    for j := 0 to n
      invariant vol.Valid() && file.sector == old(file.sector) + j
      invariant file.sector < Capacity(vol.g, c) ==> file.On(vol.g, c)
    {
      vol.FileNextSector(file, c);
    }
  }

  // ---------- reading a track ----------

  /** One poll of the FPGA: read request, head position, sync word. */
  datatype Poll = Poll(wanted: bool, track: nat, sync: nat)

  /** One SendSector call, and whether SendGap followed. */
  datatype Sent = Sent(sector: nat, track: nat, data: Sector, sync: nat, gap: bool)

  function Clamp(track: nat, tracks: nat): (r: nat)
    requires tracks > 0
    ensures r <= track && r < tracks && (r < track ==> r + 1 == tracks)
  {
    if track >= tracks then tracks - 1 else track
  }

  /** The workaround for Copy Lock. */
  function Sync(w: nat): (r: nat)
    ensures r == w <==> w !in {0x0000, 0x8914, 0xA144}
    ensures r != w ==> r == 0x4489
  {
    if w == 0 || w == 0x8914 || w == 0xA144 then 0x4489 else w
  }

  /** Sector number s of track t is under the handle. */
  ghost predicate Under(g: Geometry, c: Chain, file: FileHandle, t: nat, s: nat)
    reads file`sector, file`cluster
  {
    s < SECTORS && file.sector == SECTORS * t + s && file.On(g, c)
  }

  /** The sectors sent are consecutive sectors of image track t, from sector number `first` on and
      around the track. */
  ghost predicate IsTrackRun(g: Geometry, d: Disk, c: Chain, t: nat, first: nat, sent: seq<Sent>) {
    g.clusterSize > 0 && forall i :: 0 <= i < |sent| ==> IsSector(g, d, c, t, (first + i) % SECTORS, sent[i])
  }

  ghost predicate IsSector(g: Geometry, d: Disk, c: Chain, t: nat, s: nat, x: Sent)
    requires g.clusterSize > 0
  {
    && (SECTORS * t + s) / g.clusterSize < |c| && x.data == FileSector(g, d, c, SECTORS * t + s)
    && x.sector == s && x.track == t && x.gap == (s == SECTORS - 1)
  }

  /** Exactly the leading polls that want this track are answered, each with its sync word. */
  predicate Served(polls: seq<Poll>, t: nat, tracks: nat, sent: seq<Sent>)
    requires tracks > 0
  {
    Answered(polls, t, tracks, sent) && (|sent| < |polls| ==> !Wants(polls[|sent|], t, tracks))
  }

  predicate Answered(polls: seq<Poll>, t: nat, tracks: nat, sent: seq<Sent>)
    requires tracks > 0
  {
    && |sent| <= |polls|
    && forall i :: 0 <= i < |sent| ==> Wants(polls[i], t, tracks) && sent[i].sync == Sync(polls[i].sync)
  }

  predicate Wants(poll: Poll, t: nat, tracks: nat)
    requires tracks > 0
  {
    Clamp(poll.track, tracks) == t && poll.wanted
  }

  /** ReadTrack.  `polls` are the FPGA's answers; none left means that nothing more is requested. */
  method ReadTrack(vol: Volume, file: FileHandle, drive: Drive, polls: seq<Poll>, ghost c: Chain)
    returns (sent: seq<Sent>)
    requires vol.Valid() && vol.Owns(c) && drive.Inserted(vol.g, c)
    requires drive.Resumable(vol.g, c, Clamp(drive.track, drive.tracks))
    modifies drive`track, drive`trackPrev, drive`sectorOffset, drive`clusterOffset
    modifies file`sector, file`cluster, vol`bufferedFatIndex, vol.fatBuffer, vol.sectorBuffer
    ensures vol.Valid() && drive.AllResumable(vol.g, c)
    ensures drive.track == drive.trackPrev == Clamp(old(drive.track), drive.tracks)
    ensures var first := if old(drive.trackPrev) == drive.track then old(drive.sectorOffset) else 0;
            IsTrackRun(vol.g, vol.disk, c, drive.track, first, sent) && Served(polls, drive.track, drive.tracks, sent)
  {
    if drive.track >= drive.tracks { drive.track := drive.tracks - 1; }
    var sector := Resume(vol.g, file, drive, c);
    sent := SendWanted(vol, file, drive, sector, polls, c);
  }

  /** The position a read starts from: the saved one, or the start of the track. */
  method Resume(ghost g: Geometry, file: FileHandle, drive: Drive, ghost c: Chain) returns (sector: nat)
    requires drive.Inserted(g, c) && drive.track < drive.tracks
    modifies drive`trackPrev, drive`sectorOffset, drive`clusterOffset, file`sector, file`cluster
    ensures drive.trackPrev == drive.track && drive.sectorOffset == sector && drive.clusterOffset == file.cluster
    ensures file.sector == SECTORS * drive.track + sector
    ensures old(drive.Resumable(g, c, drive.track)) ==> Under(g, c, file, drive.track, sector)
    ensures old(drive.trackPrev) == drive.track ==>
              sector == old(drive.sectorOffset) && file.cluster == old(drive.clusterOffset)
    ensures old(drive.trackPrev) != drive.track ==> sector == 0
  {
    sector := 0;
    if drive.track != drive.trackPrev {
      StartTrack(g, file, drive, c);
    } else {
      sector := drive.sectorOffset;
      file.cluster, file.sector := drive.clusterOffset, drive.track * SECTORS + sector;
    }
  }

  /** The loop of ReadTrack. */
  method SendWanted(vol: Volume, file: FileHandle, drive: Drive, start: nat, polls: seq<Poll>, ghost c: Chain)
    returns (sent: seq<Sent>)
    requires vol.Valid() && vol.Owns(c) && drive.Inserted(vol.g, c) && drive.track == drive.trackPrev < drive.tracks
    requires Under(vol.g, c, file, drive.track, start)
    requires drive.sectorOffset == start && drive.clusterOffset == file.cluster
    modifies drive`sectorOffset, drive`clusterOffset
    modifies file`sector, file`cluster, vol`bufferedFatIndex, vol.fatBuffer, vol.sectorBuffer
    ensures vol.Valid() && drive.AllResumable(vol.g, c) && IsTrackRun(vol.g, vol.disk, c, drive.track, start, sent)
    ensures Served(polls, drive.track, drive.tracks, sent)
  {
    var sector := start;
    sent := [];
    var more := true;
    while more && |sent| < |polls|
      invariant Sending(vol, file, drive, c, start, polls, sent, sector)
      invariant !more ==> Served(polls, drive.track, drive.tracks, sent)
      decreases |polls| - |sent|, more
    {
      more, sent, sector := SendNext(vol, file, drive, start, polls, sent, sector, c);
    }
  }

  /** `sent` was sent, and the handle and the saved position are at the next sector. */
  ghost predicate Sending(vol: Volume, file: FileHandle, drive: Drive, c: Chain, start: nat, polls: seq<Poll>,
                          sent: seq<Sent>, sector: nat)
    reads vol, vol.fatBuffer, file`sector, file`cluster
    reads drive`track, drive`tracks, drive`sectorOffset, drive`clusterOffset
  {
    && vol.Valid() && Under(vol.g, c, file, drive.track, sector) && drive.tracks > 0
    && drive.sectorOffset == sector && drive.clusterOffset == file.cluster
    && IsTrackRun(vol.g, vol.disk, c, drive.track, start, sent) && sector == (start + |sent|) % SECTORS
    && Answered(polls, drive.track, drive.tracks, sent)
  }

  method SendNext(vol: Volume, file: FileHandle, drive: Drive, ghost start: nat, polls: seq<Poll>, sent: seq<Sent>,
                  sector: nat, ghost c: Chain) returns (more: bool, sent': seq<Sent>, next: nat)
    requires vol.Owns(c) && drive.Inserted(vol.g, c) && drive.track < drive.tracks && |sent| < |polls|
    requires Sending(vol, file, drive, c, start, polls, sent, sector)
    modifies drive`sectorOffset, drive`clusterOffset
    modifies file`sector, file`cluster, vol`bufferedFatIndex, vol.fatBuffer, vol.sectorBuffer
    ensures Sending(vol, file, drive, c, start, polls, sent', next)
    ensures |sent'| == if more then |sent| + 1 else |sent|
    ensures !more ==> Served(polls, drive.track, drive.tracks, sent')
  {
    var x;
    more, x, next := ServeOne(vol, file, drive, sector, polls[|sent|], c);
    sent' := sent;
    if more {
      SendOne(vol.g, vol.disk, c, drive.track, drive.tracks, start, polls, sent, x);
      sent' := sent + [x];
    }
  }

  /** The body of the loop: read the sector, and send it if it is wanted. */
  method ServeOne(vol: Volume, file: FileHandle, drive: Drive, sector: nat, poll: Poll, ghost c: Chain)
    returns (more: bool, x: Sent, next: nat)
    requires vol.Valid() && vol.Owns(c) && drive.Inserted(vol.g, c) && drive.track < drive.tracks
    requires Under(vol.g, c, file, drive.track, sector)
    requires drive.sectorOffset == sector && drive.clusterOffset == file.cluster
    modifies drive`sectorOffset, drive`clusterOffset
    modifies file`sector, file`cluster, vol`bufferedFatIndex, vol.fatBuffer, vol.sectorBuffer
    ensures vol.Valid() && Under(vol.g, c, file, drive.track, next) && more == Wants(poll, drive.track, drive.tracks)
    ensures drive.sectorOffset == next && drive.clusterOffset == file.cluster
    ensures if more then
              next == (sector + 1) % SECTORS && IsSector(vol.g, vol.disk, c, drive.track, sector, x)
              && x.sync == Sync(poll.sync)
            else next == sector
  {
    vol.FileRead(file, vol.sectorBuffer, 0);
    x := Sent(sector, drive.track, vol.sectorBuffer[..], Sync(poll.sync), sector == SECTORS - 1);
    more, next := Wants(poll, drive.track, drive.tracks), sector;
    if more {
      next := NextOnTrack(vol, file, drive, sector, c);
    }
  }

  /** One more sector goes out. */
  lemma SendOne(g: Geometry, d: Disk, c: Chain, t: nat, tracks: nat, start: nat, polls: seq<Poll>, sent: seq<Sent>,
                x: Sent)
    requires IsTrackRun(g, d, c, t, start, sent) && IsSector(g, d, c, t, (start + |sent|) % SECTORS, x)
    requires tracks > 0 && Answered(polls, t, tracks, sent) && |sent| < |polls|
    requires Wants(polls[|sent|], t, tracks) && x.sync == Sync(polls[|sent|].sync)
    ensures IsTrackRun(g, d, c, t, start, sent + [x]) && Answered(polls, t, tracks, sent + [x])
    ensures ((start + |sent|) % SECTORS + 1) % SECTORS == (start + |sent + [x]|) % SECTORS
  {
    RunGrows(g, d, c, t, start, sent, x);
  }

  lemma RunGrows(g: Geometry, d: Disk, c: Chain, t: nat, start: nat, sent: seq<Sent>, x: Sent)
    requires IsTrackRun(g, d, c, t, start, sent) && IsSector(g, d, c, t, (start + |sent|) % SECTORS, x)
    ensures IsTrackRun(g, d, c, t, start, sent + [x])
    ensures ((start + |sent|) % SECTORS + 1) % SECTORS == (start + |sent| + 1) % SECTORS
  {
    forall i | 0 <= i < |sent + [x]|
      ensures IsSector(g, d, c, t, (start + i) % SECTORS, (sent + [x])[i])
    {
      if i < |sent| {
        assert (sent + [x])[i] == sent[i];
      } else {
        assert (sent + [x])[i] == x && i == |sent|;
      }
    }
  }

  /** Go to the start of the current track. */
  method StartTrack(ghost g: Geometry, file: FileHandle, drive: Drive, ghost c: Chain)
    requires drive.Inserted(g, c) && drive.track < drive.tracks
    modifies drive`trackPrev, drive`sectorOffset, drive`clusterOffset, file`sector, file`cluster
    ensures drive.trackPrev == drive.track && drive.sectorOffset == 0 && drive.clusterOffset == file.cluster
    ensures Under(g, c, file, drive.track, 0)
  {
    assert Located(g, c, SECTORS * drive.track, drive.cache[drive.track]);
    drive.trackPrev := drive.track;
    file.cluster, file.sector := drive.cache[drive.track], drive.track * SECTORS;
    drive.sectorOffset, drive.clusterOffset := 0, file.cluster;
  }

  /** The end of the loop of ReadTrack: advance, or return to the start of the track. */
  method NextOnTrack(vol: Volume, file: FileHandle, drive: Drive, sector: nat, ghost c: Chain) returns (next: nat)
    requires vol.Valid() && vol.Owns(c) && drive.Inserted(vol.g, c) && drive.track < drive.tracks
    requires Under(vol.g, c, file, drive.track, sector)
    modifies drive`sectorOffset, drive`clusterOffset, file`sector, file`cluster, vol`bufferedFatIndex, vol.fatBuffer
    ensures vol.Valid() && next == (sector + 1) % SECTORS && Under(vol.g, c, file, drive.track, next)
    ensures drive.sectorOffset == next && drive.clusterOffset == file.cluster
  {
    next := sector + 1;
    if next < SECTORS {
      vol.FileNextSector(file, c);
    } else {
      assert Located(vol.g, c, SECTORS * drive.track, drive.cache[drive.track]);
      next := 0;
      file.cluster, file.sector := drive.cache[drive.track], drive.track * SECTORS;
    }
    drive.sectorOffset, drive.clusterOffset := next, file.cluster;
  }

  // ---------- writing a track ----------

  function ToByte(b: bv8): Byte { b as int }

  function Bytes(p: T.Payload): Sector { seq(T.DATA, i requires 0 <= i < T.DATA => ToByte(p[i])) }

  /** A sector of the current track that was received intact. */
  datatype Write = Write(sector: nat, data: Sector)

  /** What the decoder makes of the header behind a sync word at p: where it reads on, whether the
      header is good and names this track, and its sector number. */
  function HeaderAt(s: seq<bv8>, p: nat, track: bv8): (r: (nat, bool, nat))
    requires p <= |s|
    ensures p <= r.0 <= |s| && r.2 < SECTORS
  {
    if (|s| - p) / 2 <= 24 then (p, false, 0)
    else
      var w := s[p..p + 50];
      var error := T.HeaderError(w);
      if error != 0 then (p + T.HeaderRead(error), false, 0)
      else (p + 50, T.Joined(w[3], w[7]) == track, SectorNumber(w))
  }

  function SectorNumber(w: seq<bv8>): (n: nat)
    requires |w| == 50 && T.HeaderError(w) == 0
    ensures n < SECTORS
  {
    SmallByte(T.Joined(w[4], w[8]));
    T.Joined(w[4], w[8]) as int
  }

  lemma SmallByte(b: bv8)
    requires b <= 10
    ensures b as int < 11
  {
  }

  /** What it makes of the data field at p. */
  function DataAt(s: seq<bv8>, p: nat): (r: (nat, bool, Sector))
    requires p <= |s|
    ensures p <= r.0 <= |s|
  {
    if (|s| - p) / 2 < 0x204 then (p, false, Blank())
    else (p + 1032, T.DataAccepted(s[p..p + 1032]), Bytes(T.DataDecoded(s[p..p + 1032])))
  }

  /** Where WriteTrack reads on after a sync word at p, and the sector it accepts, if any. */
  function Step(s: seq<bv8>, p: nat, track: bv8): (r: (nat, seq<Write>))
    requires p <= |s|
    ensures p <= r.0 <= |s|
  {
    var (q, mine, n) := HeaderAt(s, p, track);
    if !mine then (q, [])
    else
      var (next, ok, data) := DataAt(s, q);
      (next, if ok then [Write(n, data)] else [])
  }

  function Accepted(s: seq<bv8>, p: nat, track: bv8): seq<Write>
    requires p <= |s|
    decreases |s| - p
  {
    var q := T.FirstSync(s, p);
    if q == |s| then []
    else
      var (next, ws) := Step(s, q + 2, track);
      ws + Accepted(s, next, track)
  }

  /** The card after the accepted sectors were written to image sectors from `base` on. */
  function Applied(g: Geometry, c: Chain, base: nat, d: Disk, ws: seq<Write>): Disk
    requires g.clusterSize > 0
  {
    if ws == [] then d
    else
      var d', w := Applied(g, c, base, d, ws[..|ws| - 1]), ws[|ws| - 1];
      if (base + w.sector) / g.clusterSize < |c| then d'[FileLba(g, c, base + w.sector) := w.data] else d'
  }

  lemma {:induction false} AppliedJoins(g: Geometry, c: Chain, base: nat, d: Disk, a: seq<Write>, b: seq<Write>)
    requires g.clusterSize > 0
    ensures Applied(g, c, base, d, a + b) == Applied(g, c, base, Applied(g, c, base, d, a), b)
  {
    if b == [] {
      assert a + b == a;
    } else {
      assert (a + b)[..|a + b| - 1] == a + b[..|b| - 1];
      AppliedJoins(g, c, base, d, a, b[..|b| - 1]);
    }
  }

  /** The position of the write handle on the current track. */
  ghost predicate Writing(vol: Volume, file: FileHandle, drive: Drive, c: Chain, sector: nat)
    reads vol, vol.fatBuffer, file`sector, file`cluster, drive`track, drive`tracks, drive.cache
  {
    && vol.Valid() && vol.Owns(c) && drive.Inserted(vol.g, c) && drive.track < drive.tracks
    && Under(vol.g, c, file, drive.track, sector)
  }

  /** The repositioning loop: forward sector by sector, backward from the start of the track. */
  method Reposition(vol: Volume, file: FileHandle, drive: Drive, from: nat, to: nat, ghost c: Chain)
    requires Writing(vol, file, drive, c, from) && to < SECTORS
    modifies file`sector, file`cluster, vol`bufferedFatIndex, vol.fatBuffer
    ensures Writing(vol, file, drive, c, to)
  {
    var sector: nat := from;
    while sector != to
      invariant Writing(vol, file, drive, c, sector)
      decreases sector > to, SECTORS + to - sector
    {
      if sector < to {
        vol.FileNextSector(file, c);
        sector := sector + 1;
      } else {
        assert Located(vol.g, c, SECTORS * drive.track, drive.cache[drive.track]);
        file.cluster, file.sector := drive.cache[drive.track], drive.track * SECTORS;
        sector := 0;
      }
    }
  }

  /** The decoder's buffer is none of the volume's. */
  ghost predicate Apart(vol: Volume, fifo: T.Fifo) {
    var b: object := fifo.buffer;
    b != vol.fatBuffer && b != vol.sectorBuffer
  }

  /** What follows a sync word: header, position, data, and the write. */
  method TakeSector(vol: Volume, file: FileHandle, drive: Drive, fifo: T.Fifo, track: bv8, sector: nat, ghost c: Chain)
    returns (at: nat)
    requires Writing(vol, file, drive, c, sector) && fifo.Valid() && fifo.writing && Apart(vol, fifo)
    modifies vol`disk, vol`bufferedFatIndex, vol.fatBuffer, vol.sectorBuffer, file`sector, file`cluster
    modifies fifo`pos, fifo`error, fifo.buffer
    ensures Writing(vol, file, drive, c, at) && fifo.Valid() && old(fifo.pos) <= fifo.pos
    ensures var (next, ws) := Step(fifo.input, old(fifo.pos), track);
            && fifo.pos == next
            && vol.disk == Applied(vol.g, c, SECTORS * drive.track, old(vol.disk), if drive.writable then ws else [])
  {
    at := sector;
    var mine, n := MyHeader(fifo, track);
    if mine {
      Reposition(vol, file, drive, sector, n, c);
      at := n;
      TakeData(vol, file, drive, fifo, at, c);
    }
  }

  method TakeData(vol: Volume, file: FileHandle, drive: Drive, fifo: T.Fifo, at: nat, ghost c: Chain)
    requires Writing(vol, file, drive, c, at) && fifo.Valid() && fifo.writing && Apart(vol, fifo)
    modifies vol`disk, vol.sectorBuffer, fifo`pos, fifo`error, fifo.buffer
    ensures Writing(vol, file, drive, c, at) && fifo.Valid()
    ensures var (next, ok, data) := DataAt(fifo.input, old(fifo.pos));
            && fifo.pos == next
            && vol.disk == Applied(vol.g, c, SECTORS * drive.track, old(vol.disk),
                                   if ok && drive.writable then [Write(at, data)] else [])
  {
    var ok, data := ReceiveData(fifo);
    if ok && drive.writable {
      StoreSector(vol, file, drive, at, data, c);
    }
  }

  /** GetHeader and the comparison of the track number. */
  method MyHeader(fifo: T.Fifo, track: bv8) returns (mine: bool, n: nat)
    requires fifo.Valid() && fifo.writing
    modifies fifo`pos, fifo`error
    ensures fifo.Valid() && n < SECTORS
    ensures var h := HeaderAt(fifo.input, old(fifo.pos), track);
            fifo.pos == h.0 && mine == h.1 && (mine ==> n == h.2)
  {
    ghost var p := fifo.pos;
    var ok, t, s := fifo.GetHeader();
    mine, n := ok && t == track, 0;
    if mine {
      n := s as int;
      assert n == SectorNumber(fifo.input[p..p + 50]);
    }
  }

  method ReceiveData(fifo: T.Fifo) returns (ok: bool, data: Sector)
    requires fifo.Valid() && fifo.writing
    modifies fifo`pos, fifo`error, fifo.buffer
    ensures fifo.Valid()
    ensures var f := DataAt(fifo.input, old(fifo.pos));
            fifo.pos == f.0 && ok == f.1 && (ok ==> data == f.2)
  {
    ok := fifo.GetData();
    data := Bytes(fifo.buffer[..]);
  }

  /** FileWrite of the received sector. */
  method StoreSector(vol: Volume, file: FileHandle, drive: Drive, at: nat, data: Sector, ghost c: Chain)
    requires Writing(vol, file, drive, c, at)
    modifies vol`disk, vol.sectorBuffer
    ensures Writing(vol, file, drive, c, at)
    ensures vol.disk == Applied(vol.g, c, SECTORS * drive.track, old(vol.disk), [Write(at, data)])
  {
    forall i | 0 <= i < SECTOR_BYTES {
      vol.sectorBuffer[i] := data[i];
    }
    assert vol.sectorBuffer[..] == data;
    ghost var d := vol.disk;
    vol.FileWrite(file, vol.sectorBuffer, c);
    assert Applied(vol.g, c, SECTORS * drive.track, d, []) == d;
  }

  /** WriteTrack; `track` is the drive's track number as a byte. */
  method WriteTrack(vol: Volume, file: FileHandle, drive: Drive, fifo: T.Fifo, track: bv8, ghost c: Chain)
    requires vol.Valid() && vol.Owns(c) && drive.Inserted(vol.g, c) && track as int == drive.track < drive.tracks
    requires fifo.Valid() && Apart(vol, fifo)
    modifies drive`trackPrev, vol`disk, vol`bufferedFatIndex, vol.fatBuffer, vol.sectorBuffer
    modifies file`sector, file`cluster, fifo`pos, fifo`error, fifo.buffer
    ensures vol.Valid() && vol.Owns(c) && drive.trackPrev == drive.track + 1
    ensures forall t :: 0 <= t < drive.tracks && t != drive.track + 1 ==> drive.Resumable(vol.g, c, t)
    ensures var asked := fifo.writing && fifo.head == track && drive.writable;
            vol.disk == Applied(vol.g, c, SECTORS * drive.track, old(vol.disk),
                                if asked then Accepted(fifo.input, old(fifo.pos), track) else [])
  {
    Rewind(vol.g, file, drive, c);
    TakeSectors(vol, file, drive, fifo, track, c);
  }

  /** The start of WriteTrack: it marks the next track as the current one. */
  method Rewind(ghost g: Geometry, file: FileHandle, drive: Drive, ghost c: Chain)
    requires drive.Inserted(g, c) && drive.track < drive.tracks
    modifies drive`trackPrev, file`sector, file`cluster
    ensures drive.trackPrev == drive.track + 1 && Under(g, c, file, drive.track, 0)
  {
    assert Located(g, c, SECTORS * drive.track, drive.cache[drive.track]);
    file.cluster, file.sector := drive.cache[drive.track], drive.track * SECTORS;
    drive.trackPrev := (drive.track + 1) % 0x100;
  }

  /** The loop of WriteTrack, from its first test on. */
  method TakeSectors(vol: Volume, file: FileHandle, drive: Drive, fifo: T.Fifo, track: bv8, ghost c: Chain)
    requires Writing(vol, file, drive, c, 0) && fifo.Valid() && Apart(vol, fifo)
    modifies vol`disk, vol`bufferedFatIndex, vol.fatBuffer, vol.sectorBuffer
    modifies file`sector, file`cluster, fifo`pos, fifo`error, fifo.buffer
    ensures vol.Valid() && vol.Owns(c)
    ensures var asked := fifo.writing && fifo.head == track && drive.writable;
            vol.disk == Applied(vol.g, c, SECTORS * drive.track, old(vol.disk),
                                if asked then Accepted(fifo.input, old(fifo.pos), track) else [])
  {
    ghost var p, all := fifo.pos, Accepted(fifo.input, fifo.pos, track);
    var found := FindNext(fifo, track);
    if fifo.writing && fifo.head == track { AcceptedFrom(fifo.input, p, track, found, fifo.pos); }
    if found {
      TakeAll(vol, file, drive, fifo, track, c, all);
    }
  }

  method TakeAll(vol: Volume, file: FileHandle, drive: Drive, fifo: T.Fifo, track: bv8, ghost c: Chain,
                 ghost all: seq<Write>)
    requires Writing(vol, file, drive, c, 0) && fifo.Valid() && Apart(vol, fifo)
    requires fifo.writing && fifo.head == track && Progress(fifo.input, fifo.pos, track, true, [], all)
    modifies vol`disk, vol`bufferedFatIndex, vol.fatBuffer, vol.sectorBuffer
    modifies file`sector, file`cluster, fifo`pos, fifo`error, fifo.buffer
    ensures vol.Valid() && vol.Owns(c)
    ensures vol.disk == Applied(vol.g, c, SECTORS * drive.track, old(vol.disk), if drive.writable then all else [])
  {
    var sector, found := 0, true;
    ghost var d, base := vol.disk, SECTORS * drive.track;
    ghost var done := [];
    while found
      invariant Writing(vol, file, drive, c, sector) && fifo.Valid()
      invariant Progress(fifo.input, fifo.pos, track, found, done, all)
      invariant vol.disk == Applied(vol.g, c, base, d, if drive.writable then done else [])
      decreases |fifo.input| - fifo.pos, found
    {
      sector, found, done := TakeNext(vol, file, drive, fifo, track, sector, c, d, done, all);
    }
  }

  /** The body of the loop. */
  method TakeNext(vol: Volume, file: FileHandle, drive: Drive, fifo: T.Fifo, track: bv8, sector: nat, ghost c: Chain,
                  ghost d: Disk, ghost done: seq<Write>, ghost all: seq<Write>)
    returns (at: nat, found: bool, ghost more: seq<Write>)
    requires Writing(vol, file, drive, c, sector) && fifo.Valid() && Apart(vol, fifo)
    requires fifo.writing && fifo.head == track && Progress(fifo.input, fifo.pos, track, true, done, all)
    requires vol.disk == Applied(vol.g, c, SECTORS * drive.track, d, if drive.writable then done else [])
    modifies vol`disk, vol`bufferedFatIndex, vol.fatBuffer, vol.sectorBuffer
    modifies file`sector, file`cluster, fifo`pos, fifo`error, fifo.buffer
    ensures Writing(vol, file, drive, c, at) && fifo.Valid()
    ensures if found then old(fifo.pos) < fifo.pos else old(fifo.pos) <= fifo.pos
    ensures Progress(fifo.input, fifo.pos, track, found, more, all)
    ensures vol.disk == Applied(vol.g, c, SECTORS * drive.track, d, if drive.writable then more else [])
  {
    ghost var ws := Step(fifo.input, fifo.pos, track).1;
    at := TakeSector(vol, file, drive, fifo, track, sector, c);
    if drive.writable { AppliedJoins(vol.g, c, SECTORS * drive.track, d, done, ws); }
    MoveOver(all, done, ws, Accepted(fifo.input, fifo.pos, track));
    more := done + ws;
    ghost var p := fifo.pos;
    found := FindNext(fifo, track);
    AcceptedFrom(fifo.input, p, track, found, fifo.pos);
    assert more + [] == more;
  }

  /** `done` is the part of `all` that was accepted so far; the rest of the stream holds the
      remainder. */
  ghost predicate Progress(s: seq<bv8>, p: nat, track: bv8, found: bool, done: seq<Write>, all: seq<Write>)
    requires p <= |s|
  {
    if found then all == done + Behind(s, p, track) else all == done
  }

  lemma MoveOver(all: seq<Write>, done: seq<Write>, ws: seq<Write>, rest: seq<Write>)
    requires all == done + (ws + rest)
    ensures all == (done + ws) + rest
  {
  }

  method FindNext(fifo: T.Fifo, track: bv8) returns (found: bool)
    requires fifo.Valid()
    modifies fifo`pos
    ensures fifo.Valid() && old(fifo.pos) <= fifo.pos
    ensures found ==> fifo.writing && fifo.head == track && old(fifo.pos) < fifo.pos
    ensures fifo.writing && fifo.head == track ==> NextSync(fifo.input, old(fifo.pos), found, fifo.pos)
  {
    found := fifo.FindSync(track);
  }

  /** From p on the next sync word ends at `next`, if there is one. */
  predicate NextSync(s: seq<bv8>, p: nat, found: bool, next: nat) {
    var q := T.FirstSync(s, p);
    if found then q < |s| && next == q + 2 <= |s| else q == |s|
  }

  lemma AcceptedFrom(s: seq<bv8>, p: nat, track: bv8, found: bool, next: nat)
    requires p <= |s| && NextSync(s, p, found, next)
    ensures Accepted(s, p, track) == if found then Behind(s, next, track) else []
  {
  }

  function Behind(s: seq<bv8>, p: nat, track: bv8): seq<Write>
    requires p <= |s|
  {
    var (next, ws) := Step(s, p, track);
    ws + Accepted(s, next, track)
  }

  // ---------- what is stored of an encoded track with at most one damaged byte ----------

  /** The writes for the sectors from number j on, apart from the lost ones. */
  ghost function Kept(secs: T.Sectors, j: nat, lost: set<nat>): seq<Write>
    requires j <= SECTORS
    decreases SECTORS - j
  {
    if j == SECTORS then [] else KeptAt(secs, j, lost) + Kept(secs, j + 1, lost)
  }

  ghost function KeptAt(secs: T.Sectors, j: nat, lost: set<nat>): seq<Write>
    requires j < SECTORS
  {
    if j in lost then [] else [Write(j, Bytes(secs[j]))]
  }

  /** Sector number k at p is stored, if `kept`, and the decoder goes on behind it. */
  ghost predicate Yields(s: seq<bv8>, p: nat, d: T.Payload, k: nat, track: bv8, kept: bool) {
    && p + T.SECTOR_SIZE <= |s|
    && Accepted(s, p, track) == (if kept then [Write(k, Bytes(d))] else []) + Accepted(s, p + T.SECTOR_SIZE, track)
  }

  lemma SameSync(s: seq<bv8>, p: nat, q: nat, track: bv8)
    requires p <= |s| && q <= |s| && T.FirstSync(s, p) == T.FirstSync(s, q)
    ensures Accepted(s, p, track) == Accepted(s, q, track)
  {
  }

  /** What the decoder makes of the header of a sector of track `head` with one byte damaged. */
  lemma HeaderOutcome(s: seq<bv8>, p: nat, d: T.Payload, k: nat, head: bv8, track: bv8, o: nat, b: bv8)
    requires T.Damaged(s, p, d, k, head, o, b)
    ensures T.FirstSync(s, p) + 2 <= |s|
    ensures var (z, mine, n) := HeaderAt(s, T.FirstSync(s, p) + 2, track);
            && (mine <==> head == track && (56 <= o || T.Harmless(o, T.Sent(d, k, head, o), b)))
            && (if mine then z == p + 56 && n == k else InSector(p, z))
  {
    T.SyncFound(s, p, d, k, head, o, b);
    T.SmallNumber(k);
    if T.FirstSync(s, p) == p + 4 {
      T.DamagedHeader(s, p, d, k, head, o, b);
    } else {
      T.DamagedByte(s, p, d, k, head, o, b, 8);
      assert s[p + 8..p + 58][0] == s[p + 8];
    }
  }

  lemma DataOutcome(s: seq<bv8>, p: nat, d: T.Payload, k: nat, head: bv8, o: nat, b: bv8)
    requires T.Damaged(s, p, d, k, head, o, b)
    ensures var (next, ok, data) := DataAt(s, p + 56);
            && next == p + T.SECTOR_SIZE && (ok <==> o < 56 || T.Harmless(o, T.Sent(d, k, head, o), b))
            && (ok ==> data == Bytes(d))
  {
    T.DamagedData(s, p, d, k, head, o, b);
  }

  /** What is accepted behind the sync word that is found, and where the decoder goes on. */
  lemma StepOutcome(s: seq<bv8>, p: nat, d: T.Payload, k: nat, head: bv8, track: bv8, o: nat, b: bv8)
    requires T.Damaged(s, p, d, k, head, o, b)
    ensures T.FirstSync(s, p) + 2 <= |s|
    ensures var (z, ws) := Step(s, T.FirstSync(s, p) + 2, track);
            && ws == (if head == track && T.Harmless(o, T.Sent(d, k, head, o), b) then [Write(k, Bytes(d))] else [])
            && InSector(p, z)
  {
    HeaderOutcome(s, p, d, k, head, track, o, b);
    DataOutcome(s, p, d, k, head, o, b);
    WholeSector(p);
  }

  /** At z a decoder that stands between two words of the sector at p goes on. */
  predicate InSector(p: nat, z: nat) { p + 8 <= z <= p + T.SECTOR_SIZE && (z - p) % 2 == 0 }

  lemma WholeSector(p: nat)
    ensures InSector(p, p + T.SECTOR_SIZE)
  {
  }

  /** A sector of another track is not stored, nor is one in which a bit the decoder looks at is
      damaged; any other is, as it was sent. */
  lemma SectorOutcome(s: seq<bv8>, p: nat, d: T.Payload, k: nat, head: bv8, track: bv8, o: nat, b: bv8)
    requires T.Damaged(s, p, d, k, head, o, b)
    ensures Yields(s, p, d, k, track, head == track && T.Harmless(o, T.Sent(d, k, head, o), b))
  {
    StepOutcome(s, p, d, k, head, track, o, b);
    var (z, ws) := Step(s, T.FirstSync(s, p) + 2, track);
    T.RestSkipped(s, p, d, k, head, o, b, z - p);
    SameSync(s, z, p + T.SECTOR_SIZE, track);
  }

  /** What is accepted from each sector on. */
  ghost function Rests(s: seq<bv8>, track: bv8): (rests: seq<seq<Write>>)
    requires |s| == T.TRACK_SIZE
    ensures |rests| == SECTORS + 1
  {
    seq(SECTORS + 1, k requires 0 <= k <= SECTORS => Accepted(s, T.SECTOR_SIZE * k, track))
  }

  ghost predicate RestsAt(rests: seq<seq<Write>>, secs: T.Sectors, lost: set<nat>, k: nat) {
    k < SECTORS && |rests| == SECTORS + 1 && rests[k] == KeptAt(secs, k, lost) + rests[k + 1]
  }

  lemma {:induction false} KeptIs(rests: seq<seq<Write>>, secs: T.Sectors, lost: set<nat>, j: nat)
    requires |rests| == SECTORS + 1 && j <= SECTORS && rests[SECTORS] == []
    requires forall k :: 0 <= k < SECTORS ==> RestsAt(rests, secs, lost, k)
    ensures rests[j] == Kept(secs, j, lost)
    decreases SECTORS - j
  {
    if j < SECTORS {
      KeptIs(rests, secs, lost, j + 1);
      assert RestsAt(rests, secs, lost, j);
    }
  }

  /** The sectors that are lost when byte i of track `head` is replaced by b on its way to the drive
      of `track`. */
  ghost function Lost(secs: T.Sectors, head: bv8, track: bv8, i: nat, b: bv8): set<nat> {
    if head != track then {0, 1, 2, 3, 4, 5, 6, 7, 8, 9, 10}
    else if T.SECTOR_SIZE * SECTORS <= i then {}
    else
      var k, o := i / T.SECTOR_SIZE, i % T.SECTOR_SIZE;
      if T.Harmless(o, T.Sent(secs[k], k, head, o), b) then {} else {k}
  }

  /** Of a track with one byte replaced by anything, exactly those sectors are accepted that are not
      lost: none if the track is another one, and else all but at most the damaged one. */
  lemma TrackOutcome(secs: T.Sectors, head: bv8, track: bv8, i: nat, b: bv8)
    requires head <= 159 && i < T.TRACK_SIZE
    ensures Accepted(T.TrackStream(secs, head)[i := b], 0, track) == Kept(secs, 0, Lost(secs, head, track, i, b))
  {
    var s, lost := T.TrackStream(secs, head)[i := b], Lost(secs, head, track, i, b);
    forall k | 0 <= k < SECTORS
      ensures RestsAt(Rests(s, track), secs, lost, k)
    {
      OneOutcome(secs, head, track, i, b, k);
      YieldsRest(s, secs, track, lost, k);
    }
    NothingBehind(secs, head, track, i, b);
    KeptIs(Rests(s, track), secs, lost, 0);
  }

  lemma YieldsRest(s: seq<bv8>, secs: T.Sectors, track: bv8, lost: set<nat>, k: nat)
    requires |s| == T.TRACK_SIZE && k < SECTORS
    requires Yields(s, T.SECTOR_SIZE * k, secs[k], k, track, k !in lost)
    ensures RestsAt(Rests(s, track), secs, lost, k)
  {
    assert T.SECTOR_SIZE * k + T.SECTOR_SIZE == T.SECTOR_SIZE * (k + 1);
  }

  lemma NothingBehind(secs: T.Sectors, head: bv8, track: bv8, i: nat, b: bv8)
    requires i < T.TRACK_SIZE
    ensures Rests(T.TrackStream(secs, head)[i := b], track)[SECTORS] == []
  {
    T.GapHasNoSync(secs, head, i, b);
  }

  lemma OneOutcome(secs: T.Sectors, head: bv8, track: bv8, i: nat, b: bv8, k: nat)
    requires head <= 159 && i < T.TRACK_SIZE && k < SECTORS
    ensures Yields(T.TrackStream(secs, head)[i := b], T.SECTOR_SIZE * k, secs[k], k, track,
                   k !in Lost(secs, head, track, i, b))
  {
    var s := T.TrackStream(secs, head)[i := b];
    LostWhere(secs, head, track, i, b, k);
    if k == i / T.SECTOR_SIZE {
      T.SectorDamaged(secs, head, k, i, b);
      SectorOutcome(s, T.SECTOR_SIZE * k, secs[k], k, head, track, i % T.SECTOR_SIZE, b);
    } else {
      T.SectorUndamaged(secs, head, k, i, b);
      SectorOutcome(s, T.SECTOR_SIZE * k, secs[k], k, head, track, 0, 0xAA);
    }
  }

  lemma LostWhere(secs: T.Sectors, head: bv8, track: bv8, i: nat, b: bv8, k: nat)
    requires i < T.TRACK_SIZE && k < SECTORS
    ensures k !in Lost(secs, head, track, i, b) <==>
              head == track && (k == i / T.SECTOR_SIZE ==>
                                  T.Harmless(i % T.SECTOR_SIZE, T.Sent(secs[k], k, head, i % T.SECTOR_SIZE), b))
  {
  }

  /** What the image sectors of the track hold afterwards. */
  ghost function Image(g: Geometry, d: Disk, c: Chain, base: nat, secs: T.Sectors, lost: set<nat>, n: nat)
    : (data: seq<Sector>)
    requires g.Valid() && n <= SECTORS && base + SECTORS <= Capacity(g, c)
    ensures |data| == n
  {
    seq(n, i requires 0 <= i < n => OneImage(g, d, c, base, secs, lost, i))
  }

  ghost function OneImage(g: Geometry, d: Disk, c: Chain, base: nat, secs: T.Sectors, lost: set<nat>, i: nat): Sector
    requires g.Valid() && i < SECTORS && base + SECTORS <= Capacity(g, c)
  {
    InCapacity(g, c, base + i);
    if i in lost then FileSector(g, d, c, base + i) else Bytes(secs[i])
  }

  lemma {:induction false} KeptStored(g: Geometry, t: Table, d: Disk, d': Disk, c: Chain, base: nat,
                                      secs: T.Sectors, lost: set<nat>, j: nat)
    requires g.Valid() && g.shape.clusterLimit <= |t| && IsChain(g.shape, t, c)
    requires j <= SECTORS && base + SECTORS <= Capacity(g, c)
    requires Wrote(g, d, d', c, base, Image(g, d, c, base, secs, lost, j))
    ensures Wrote(g, d, Applied(g, c, base, d', Kept(secs, j, lost)), c, base,
                  Image(g, d, c, base, secs, lost, SECTORS))
    decreases SECTORS - j
  {
    if j < SECTORS {
      OneStored(g, t, d, d', c, base, secs, lost, j);
      AppliedJoins(g, c, base, d', KeptAt(secs, j, lost), Kept(secs, j + 1, lost));
      KeptStored(g, t, d, Applied(g, c, base, d', KeptAt(secs, j, lost)), c, base, secs, lost, j + 1);
    } else {
      NothingApplied(g, c, base, d');
    }
  }

  lemma NothingApplied(g: Geometry, c: Chain, base: nat, d: Disk)
    requires g.clusterSize > 0
    ensures Applied(g, c, base, d, []) == d
  {
  }

  lemma OneStored(g: Geometry, t: Table, d: Disk, d': Disk, c: Chain, base: nat, secs: T.Sectors, lost: set<nat>,
                  j: nat)
    requires g.Valid() && g.shape.clusterLimit <= |t| && IsChain(g.shape, t, c)
    requires j < SECTORS && base + SECTORS <= Capacity(g, c)
    requires Wrote(g, d, d', c, base, Image(g, d, c, base, secs, lost, j))
    ensures Wrote(g, d, Applied(g, c, base, d', KeptAt(secs, j, lost)), c, base,
                  Image(g, d, c, base, secs, lost, j + 1))
  {
    var data := Image(g, d, c, base, secs, lost, j);
    InCapacity(g, c, base + j);
    ImageGrows(g, d, c, base, secs, lost, j);
    if j in lost {
      NothingApplied(g, c, base, d');
      NothingWritten(g, d, d', c, base, data);
    } else {
      OneWritten(g, t, d, d', c, base, data, Bytes(secs[j]));
    }
  }

  lemma OneWritten(g: Geometry, t: Table, d: Disk, d': Disk, c: Chain, base: nat, data: seq<Sector>, s: Sector)
    requires g.Valid() && g.shape.clusterLimit <= |t| && IsChain(g.shape, t, c)
    requires Wrote(g, d, d', c, base, data) && |data| < SECTORS && (base + |data|) / g.clusterSize < |c|
    ensures Wrote(g, d, Applied(g, c, base, d', [Write(|data|, s)]), c, base, data + [s])
  {
    AppliedOne(g, c, base, d', Write(|data|, s));
    WroteNext(g, t, d, d', c, base, data, s);
  }

  lemma ImageGrows(g: Geometry, d: Disk, c: Chain, base: nat, secs: T.Sectors, lost: set<nat>, j: nat)
    requires g.Valid() && j < SECTORS && base + SECTORS <= Capacity(g, c)
    ensures Image(g, d, c, base, secs, lost, j + 1)
         == Image(g, d, c, base, secs, lost, j) + [OneImage(g, d, c, base, secs, lost, j)]
  {
  }

  lemma AppliedOne(g: Geometry, c: Chain, base: nat, d: Disk, w: Write)
    requires g.clusterSize > 0 && (base + w.sector) / g.clusterSize < |c|
    ensures Applied(g, c, base, d, [w]) == d[FileLba(g, c, base + w.sector) := w.data]
  {
    assert [w][..0] == [];
  }

  /** A sector that was not written is as it was. */
  lemma NothingWritten(g: Geometry, d: Disk, d': Disk, c: Chain, start: nat, data: seq<Sector>)
    requires g.Valid() && Wrote(g, d, d', c, start, data) && (start + |data|) / g.clusterSize < |c|
    ensures Wrote(g, d, d', c, start, data + [FileSector(g, d, c, start + |data|)])
  {
  }

  /** Writing an encoded track, with byte i damaged or not, stores its sectors in the image, apart
      from those that are lost, and changes nothing else on the card. */
  method StoreTrack(vol: Volume, file: FileHandle, drive: Drive, secs: T.Sectors, head: bv8, track: bv8, i: nat,
                    b: bv8, ghost c: Chain)
    requires vol.Valid() && vol.Owns(c) && drive.Inserted(vol.g, c) && drive.writable
    requires track as int == drive.track < drive.tracks && head <= 159 && i < T.TRACK_SIZE
    modifies drive`trackPrev, vol`disk, vol`bufferedFatIndex, vol.fatBuffer, vol.sectorBuffer
    modifies file`sector, file`cluster
    ensures vol.Valid() && vol.Owns(c) && SECTORS * drive.track + SECTORS <= Capacity(vol.g, c)
    ensures var base, lost := SECTORS * drive.track, Lost(secs, head, track, i, b);
            Wrote(vol.g, old(vol.disk), vol.disk, c, base, Image(vol.g, old(vol.disk), c, base, secs, lost, SECTORS))
  {
    var stream := T.SendTrack(secs, head);
    var fifo := new T.Fifo(stream[i := b], true, track);
    TrackFits(vol.g, c, drive.track, drive.tracks);
    StreamStored(vol.g, vol.T(), vol.disk, c, SECTORS * drive.track, secs, head, track, i, b);
    WriteTrack(vol, file, drive, fifo, track, c);
  }

  lemma StreamStored(g: Geometry, t: Table, d: Disk, c: Chain, base: nat, secs: T.Sectors, head: bv8, track: bv8,
                     i: nat, b: bv8)
    requires g.Valid() && g.shape.clusterLimit <= |t| && IsChain(g.shape, t, c)
    requires base + SECTORS <= Capacity(g, c) && head <= 159 && i < T.TRACK_SIZE
    ensures var lost, stream := Lost(secs, head, track, i, b), T.TrackStream(secs, head)[i := b];
            Wrote(g, d, Applied(g, c, base, d, Accepted(stream, 0, track)), c, base,
                  Image(g, d, c, base, secs, lost, SECTORS))
  {
    TrackOutcome(secs, head, track, i, b);
    NoneWritten(g, d, c, base);
    KeptStored(g, t, d, d, c, base, secs, Lost(secs, head, track, i, b), 0);
  }

  lemma NoneWritten(g: Geometry, d: Disk, c: Chain, start: nat)
    requires g.Valid()
    ensures Wrote(g, d, d, c, start, [])
  {
  }

  lemma TrackFits(g: Geometry, c: Chain, t: nat, tracks: nat)
    requires t < tracks && SECTORS * tracks <= Capacity(g, c)
    ensures SECTORS * t + SECTORS <= Capacity(g, c)
  {
  }

  // ---------- the position left behind by a write ----------

  /** WriteTrack on track t marks track t + 1 as the one the saved position belongs to, although it
      is the position of a sector of track p.  A ReadTrack of track t + 1 that follows takes its
      first sector from the saved cluster, which is right exactly when both sectors lie in it. */
  method ReadBehindWrite(vol: Volume, file: FileHandle, drive: Drive, fifo: T.Fifo, track: bv8, ghost c: Chain,
                         ghost p: nat, ghost cluster: nat)
    returns (first: seq<Byte>, n: nat)
    requires vol.Valid() && vol.Owns(c) && drive.Inserted(vol.g, c) && track as int == drive.track
    requires drive.track + 1 < drive.tracks && drive.Saved(vol.g, c, p) && cluster == drive.clusterOffset
    requires fifo.Valid() && Apart(vol, fifo)
    modifies drive`trackPrev, drive`track, drive`sectorOffset, drive`clusterOffset
    modifies vol`disk, vol`bufferedFatIndex, vol.fatBuffer, vol.sectorBuffer
    modifies file`sector, file`cluster, fifo`pos, fifo`error, fifo.buffer
    ensures n == SECTORS * (old(drive.track) + 1) + old(drive.sectorOffset)
    ensures first == TakenFrom(vol.g, vol.disk, cluster, n)
    ensures vol.g.Valid() && n / vol.g.clusterSize < |c|
    ensures RightPlace(vol.g, c, cluster, n) <==>
              n / vol.g.clusterSize == (SECTORS * p + old(drive.sectorOffset)) / vol.g.clusterSize
    ensures p == old(drive.track) && vol.g.clusterSize <= 8 ==> !RightPlace(vol.g, c, cluster, n)
  {
    ghost var saved, t := SECTORS * p + drive.sectorOffset, drive.track;
    first, n := WriteThenRead(vol, file, drive, fifo, track, c);
    RightCluster(vol.g, vol.T(), c, n, saved, cluster, drive.tracks);
  }

  /** WriteTrack, and ReadTrack of the next track up to its first FileRead. */
  method WriteThenRead(vol: Volume, file: FileHandle, drive: Drive, fifo: T.Fifo, track: bv8, ghost c: Chain)
    returns (first: seq<Byte>, n: nat)
    requires vol.Valid() && vol.Owns(c) && drive.Inserted(vol.g, c) && track as int == drive.track
    requires drive.track + 1 < drive.tracks && fifo.Valid() && Apart(vol, fifo)
    modifies drive`trackPrev, drive`track, drive`sectorOffset, drive`clusterOffset
    modifies vol`disk, vol`bufferedFatIndex, vol.fatBuffer, vol.sectorBuffer
    modifies file`sector, file`cluster, fifo`pos, fifo`error, fifo.buffer
    ensures n == SECTORS * (old(drive.track) + 1) + old(drive.sectorOffset) && vol.Owns(c)
    ensures first == TakenFrom(vol.g, vol.disk, old(drive.clusterOffset), n)
  {
    WriteTrack(vol, file, drive, fifo, track, c);
    drive.track := drive.track + 1;
    n := SECTORS * drive.track + drive.sectorOffset;
    ghost var d, cluster := vol.disk, drive.clusterOffset;
    assert cluster == old(drive.clusterOffset) && drive.sectorOffset == old(drive.sectorOffset);
    first := FirstRead(vol, file, drive, c);
    assert first == TakenFrom(vol.g, d, cluster, n);
  }

  /** ReadTrack up to its first FileRead. */
  method FirstRead(vol: Volume, file: FileHandle, drive: Drive, ghost c: Chain) returns (first: seq<Byte>)
    requires vol.Valid() && drive.Inserted(vol.g, c) && drive.track == drive.trackPrev < drive.tracks
    modifies drive`trackPrev, drive`sectorOffset, drive`clusterOffset, vol.sectorBuffer, file`sector, file`cluster
    ensures first == TakenFrom(vol.g, vol.disk, old(drive.clusterOffset),
                               SECTORS * drive.track + old(drive.sectorOffset))
  {
    var sector := Resume(vol.g, file, drive, c);
    vol.FileRead(file, vol.sectorBuffer, 0);
    first := vol.sectorBuffer[..];
  }

  /** What FileRead delivers for sector n when it takes `cluster` for the cluster of that sector. */
  function TakenFrom(g: Geometry, d: Disk, cluster: nat, n: nat): Sector
    requires g.clusterSize > 0
  {
    Rd(d, Lba(g, cluster, n))
  }

  /** Sector n of the image is read when `cluster` is taken for its cluster. */
  predicate RightPlace(g: Geometry, c: Chain, cluster: nat, n: nat)
    requires g.Valid() && n / g.clusterSize < |c|
  {
    Lba(g, cluster, n) == FileLba(g, c, n)
  }

  /** The cluster of sector `saved` is the one of sector n exactly when they have the same number. */
  lemma RightCluster(g: Geometry, t: Table, c: Chain, n: nat, saved: nat, cluster: nat, tracks: nat)
    requires g.Valid() && g.shape.clusterLimit <= |t| && IsChain(g.shape, t, c) && Located(g, c, saved, cluster)
    requires n < SECTORS * tracks <= Capacity(g, c)
    ensures n / g.clusterSize < |c|
    ensures RightPlace(g, c, cluster, n) <==> n / g.clusterSize == saved / g.clusterSize
    ensures n == saved + SECTORS && g.clusterSize <= 8 ==> !RightPlace(g, c, cluster, n)
  {
    InCapacity(g, c, n);
    if RightPlace(g, c, cluster, n) {
      LbaInjective(g, cluster, n, c[n / g.clusterSize], n);
      SameClusterSamePlace(g.shape, t, c, saved / g.clusterSize, c, n / g.clusterSize);
    }
    if n == saved + SECTORS && g.clusterSize <= 8 { FartherThanACluster(saved, n, g.clusterSize); }
  }

  lemma FartherThanACluster(n: nat, m: nat, d: nat)
    requires 0 < d && n + d <= m
    ensures n / d < m / d
  {
    DivModUnique(n + d, d, n / d + 1, n % d);
    DivMonotone(n + d, m, d);
  }
}
