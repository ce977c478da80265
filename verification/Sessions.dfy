/** The operations on a volume are steps of the chain heap: opening, creating, writing through and
    closing files takes the table, the handles and the FSInfo sector from one state of the heap to
    the next. */
module Sessions {
  import opened Words
  import opened Chains
  import opened Disks
  import opened FatVolume
  import D = Directory
  import H = Heap

  /** The volume and its handles are in state s of the heap: one handle for each file, which while
      the file is open stands in the cluster that the state names. */
  ghost predicate Tracks(vol: Volume, handles: seq<FileHandle>, s: H.State)
    reads vol, vol.fatBuffer, handles
  {
    && vol.Valid() && s.t == vol.T() && H.Ok(vol.g.shape, s)
    && AllFollow(vol.g, handles, s.files) && InfoCounts(vol.infoSector, vol.disk, s.info)
  }

  ghost predicate AllFollow(g: Geometry, handles: seq<FileHandle>, files: seq<H.Session>)
    reads handles
  {
    && |handles| == |files|
    && (forall e, f :: 0 <= e < f < |handles| ==> handles[e] != handles[f])
    && (forall f :: 0 <= f < |handles| && files[f].open ==> Follows(g, handles[f], files[f]))
  }

  ghost predicate Follows(g: Geometry, h: FileHandle, x: H.Session)
    reads h
  {
    h.At(g, x.chain) && h.sector / g.clusterSize == x.pos && h.clusterChange == x.change
  }

  /** A valid FSInfo sector reports `info` free clusters. */
  predicate InfoCounts(sector: nat, d: Disk, info: int) {
    InfoValid(sector, d) ==> Le32(Rd(d, sector), FREE_COUNT) == info % WORD
  }

  lemma FilesInTable(g: Shape, s: H.State)
    requires H.Ok(g, s)
    ensures H.InTable(s)
  {
  }

  lemma InfoOutsideFat(g: Geometry, sector: nat, d: Disk, d': Disk, info: int)
    requires g.Valid() && sector < g.fatStart && Rd(d', sector) == Rd(d, sector) && InfoCounts(sector, d, info)
    ensures InfoCounts(sector, d', info)
  {
  }

  /** FileCreate is the step Create, unless the directory is full. */
  method CreateFile(vol: Volume, handles: seq<FileHandle>, file: FileHandle, ghost s: H.State,
                    ghost rc: Chain, ghost lbas: seq<nat>)
    returns (ok: bool, ghost e: nat, ghost s': H.State)
    requires Tracks(vol, handles, s) && H.Enabled(vol.g.shape, s, H.Create) && file !in handles
    requires |file.name| == D.NAME_BYTES && D.Listing(vol.g, vol.T(), rc, lbas)
    modifies vol`bufferedFatIndex, vol`disk, vol.fatBuffer, vol.sectorBuffer
    modifies file`cluster, file`startCluster, file`sector, file`clusterChange, file`entrySector, file`entryIndex
    ensures ok <==> !D.NoneBelow(old(vol.disk), lbas, D.Empty, D.Slots(lbas))
    ensures if ok then H.StepsTo(vol.g.shape, s, H.Create, s') && Tracks(vol, handles + [file], s')
            else s' == s && Tracks(vol, handles, s)
  {
    FilesInTable(vol.g.shape, s);
    ok, e := MakeNew(vol, file, s.info, rc, lbas);
    s' := s;
    if ok {
      s' := H.Apply(vol.g.shape, s, H.Create);
      H.StepKeepsOk(vol.g.shape, s, H.Create);
    }
  }

  /** FileCreate for the new file alone. */
  method MakeNew(vol: Volume, file: FileHandle, ghost info: int, ghost rc: Chain, ghost lbas: seq<nat>)
    returns (ok: bool, ghost e: nat)
    requires vol.Valid() && HasFree(vol.g.shape, vol.T()) && InfoCounts(vol.infoSector, vol.disk, info)
    requires |file.name| == D.NAME_BYTES && D.Listing(vol.g, vol.T(), rc, lbas)
    modifies vol`bufferedFatIndex, vol`disk, vol.fatBuffer, vol.sectorBuffer
    modifies file`cluster, file`startCluster, file`sector, file`clusterChange, file`entrySector, file`entryIndex
    ensures vol.Valid() && InfoCounts(vol.infoSector, vol.disk, info)
    ensures ok <==> !D.NoneBelow(old(vol.disk), lbas, D.Empty, D.Slots(lbas))
    ensures if ok then
              var n := LowestFree(old(vol.T()), 2);
              vol.T() == Allocate(vol.g.shape, old(vol.T()), n) && Follows(vol.g, file, H.Session([n], 0, 1, true))
            else vol.disk == old(vol.disk)
  {
    ghost var p;
    ok, e, p := D.FileCreate(vol, file, rc, lbas);
    if ok {
      D.StoredKeepsBoot(vol.g, old(vol.T()), rc, lbas, old(vol.disk), vol.disk, e, p);
      NewHandle(vol.g, file);
    }
  }

  lemma NewHandle(g: Geometry, file: FileHandle)
    requires g.Valid() && file.startCluster == file.cluster && file.sector == 0 && file.clusterChange == 1
    ensures Follows(g, file, H.Session([file.cluster], 0, 1, true))
  {
    D.AtStart(g, file.sector);
  }

  /** FileOpen of a file that is not open is the step Open. */
  method OpenFile(vol: Volume, handles: seq<FileHandle>, f: nat, name: seq<Byte>, ghost s: H.State,
                  ghost rc: Chain, ghost lbas: seq<nat>, ghost e: nat) returns (ghost s': H.State)
    requires Tracks(vol, handles, s) && H.Enabled(vol.g.shape, s, H.Open(f))
    requires |name| == D.NAME_BYTES && D.Listing(vol.g, vol.T(), rc, lbas) && D.Names(vol.disk, lbas, name, e)
    requires D.StartCluster(vol.g, D.SlotOf(vol.disk, lbas, e)) == s.files[f].chain[0]
    modifies vol`bufferedFatIndex, vol.fatBuffer, vol.sectorBuffer, handles[f]
    ensures H.StepsTo(vol.g.shape, s, H.Open(f), s') && Tracks(vol, handles, s')
  {
    FilesInTable(vol.g.shape, s);
    ghost var ok, found := D.FileOpen(vol, handles[f], name, rc, lbas);
    SameSlot(vol.disk, lbas, name, e, found, ok);
    s' := H.Apply(vol.g.shape, s, H.Open(f));
    H.StepKeepsOk(vol.g.shape, s, H.Open(f));
    D.AtStart(vol.g, handles[f].sector);
  }

  /** The slot FileOpen finds is the one that carries the name. */
  lemma SameSlot(d: Disk, lbas: seq<nat>, name: seq<Byte>, e: nat, found: nat, ok: bool)
    requires |name| == D.NAME_BYTES && D.Names(d, lbas, name, e)
    requires if ok then D.Names(d, lbas, name, found) else D.NoneBelow(d, lbas, D.Named(name), D.Slots(lbas))
    ensures ok && found == e
  {
    assert D.Named(name).Accepts(D.SlotOf(d, lbas, e));
    if ok {
      assert D.Named(name).Accepts(D.SlotOf(d, lbas, found));
    }
  }

  /** FileNextSectorExpand is the step Advance when it enters another cluster, and no step otherwise. */
  method NextSector(vol: Volume, handles: seq<FileHandle>, f: nat, file: FileHandle, ghost s: H.State)
    returns (ghost s': H.State)
    requires Tracks(vol, handles, s) && f < |handles| && file == handles[f] && s.files[f].open
    requires (file.sector + 1) % vol.g.clusterSize == 0 ==> H.Enabled(vol.g.shape, s, H.Advance(f))
    modifies vol`bufferedFatIndex, vol`disk, vol.fatBuffer
    modifies file`sector, file`cluster, file`clusterChange
    ensures file.sector == old(file.sector) + 1
    ensures if file.sector % vol.g.clusterSize == 0 then H.StepsTo(vol.g.shape, s, H.Advance(f), s') else s' == s
    ensures Tracks(vol, handles, s')
  {
    s' := if (file.sector + 1) % vol.g.clusterSize == 0 then Advanced(vol.g.shape, s, f) else s;
    ghost var x := MoveOn(vol, file, s.files[f], s.info);
  }

  /** The step Advance. */
  ghost function Advanced(g: Shape, s: H.State, f: nat): (s': H.State)
    requires H.Ok(g, s) && H.Enabled(g, s, H.Advance(f))
    ensures H.StepsTo(g, s, H.Advance(f), s') && H.Ok(g, s')
    ensures var x, n := s.files[f], LowestFree(s.t, 2);
            s' == if x.pos + 1 < |x.chain| then s.(files := s.files[f := x.(pos := x.pos + 1)])
                  else H.State(AppendTable(g, s.t, x.chain[|x.chain| - 1], n),
                               s.files[f := H.Session(x.chain + [n], x.pos + 1, x.change + 1, true)], s.info)
  {
    FilesInTable(g, s);
    H.StepKeepsOk(g, s, H.Advance(f));
    H.Apply(g, s, H.Advance(f))
  }

  /** FileNextSectorExpand for one open file x of the heap. */
  method MoveOn(vol: Volume, file: FileHandle, ghost x: H.Session, ghost info: int) returns (ghost x': H.Session)
    requires vol.Valid() && vol.Owns(x.chain) && x.open && Follows(vol.g, file, x)
    requires (file.sector + 1) % vol.g.clusterSize == 0 && x.pos + 1 == |x.chain| ==> HasFree(vol.g.shape, vol.T())
    requires InfoCounts(vol.infoSector, vol.disk, info)
    modifies vol`bufferedFatIndex, vol`disk, vol.fatBuffer, file`sector, file`cluster, file`clusterChange
    ensures vol.Valid() && file.sector == old(file.sector) + 1 && Follows(vol.g, file, x')
    ensures InfoCounts(vol.infoSector, vol.disk, info)
    ensures var n := LowestFree(old(vol.T()), 2);
            if file.sector % vol.g.clusterSize != 0 then x' == x && vol.disk == old(vol.disk)
            else if x.pos + 1 < |x.chain| then x' == x.(pos := x.pos + 1) && vol.disk == old(vol.disk)
            else x' == H.Session(x.chain + [n], x.pos + 1, x.change + 1, true)
                 && vol.T() == AppendTable(vol.g.shape, old(vol.T()), x.chain[|x.chain| - 1], n)
  {
    ghost var t := vol.T();
    NextSectorFacts(vol.g, t, x.chain, file.sector);
    ghost var ok, grown := vol.FileNextSectorExpand(file, x.chain);
    x' := H.Session(grown, file.sector / vol.g.clusterSize, file.clusterChange, true);
    if |grown| > |x.chain| { FreshIsUnowned(vol.g.shape, t, x.chain, file.cluster); }
    CapacityQuotient(vol.g, x.chain, file.sector);
    InfoOutsideFat(vol.g, vol.infoSector, old(vol.disk), vol.disk, info);
  }

  lemma CapacityQuotient(g: Geometry, c: Chain, n: nat)
    requires g.clusterSize > 0
    ensures n == Capacity(g, c) ==> n % g.clusterSize == 0 && n / g.clusterSize == |c|
  {
    if n == Capacity(g, c) { DivModUnique(n, g.clusterSize, |c|, 0); }
  }

  /** Any number of FileNextSectorExpand calls while free clusters remain: the file keeps its chain as a
      prefix, the other files are not touched, and what the table loses the handle counts. */
  method WriteThrough(vol: Volume, handles: seq<FileHandle>, f: nat, file: FileHandle, n: nat, ghost s: H.State)
    returns (ghost s': H.State)
    requires Tracks(vol, handles, s) && f < |handles| && file == handles[f] && s.files[f].open
    requires (file.sector + n) / vol.g.clusterSize < |s.files[f].chain| + FreeCount(s.t, vol.g.shape.clusterLimit)
    modifies vol`bufferedFatIndex, vol`disk, vol.fatBuffer
    modifies file`sector, file`cluster, file`clusterChange
    ensures Tracks(vol, handles, s') && file.sector == old(file.sector) + n && OnlyGrew(vol.g.shape, s, s', f)
  {
    s' := s;
    for i := 0 to n
      invariant Tracks(vol, handles, s') && file.sector == old(file.sector) + i && OnlyGrew(vol.g.shape, s, s', f)
    {
      RoomToAdvance(vol.g, s', f, file.sector, old(file.sector) + n);
      ghost var t := s';
      s' := NextSector(vol, handles, f, file, s');
      GrewMore(vol.g.shape, s, t, s', f);
    }
  }

  /** From s to s' file f got clusters from the free ones and nothing else happened. */
  ghost predicate OnlyGrew(g: Shape, s: H.State, s': H.State, f: nat)
    requires g.Valid() && g.clusterLimit <= |s.t| && f < |s.files|
  {
    && |s'.t| == |s.t| && |s'.files| == |s.files| && s'.files[f].open == s.files[f].open
    && (forall e :: 0 <= e < |s.files| && e != f ==> s'.files[e] == s.files[e])
    && s.files[f].chain <= s'.files[f].chain
    && FreeCount(s'.t, g.clusterLimit) + |s'.files[f].chain| == FreeCount(s.t, g.clusterLimit) + |s.files[f].chain|
    && FreeCount(s'.t, g.clusterLimit) + s'.files[f].change == FreeCount(s.t, g.clusterLimit) + s.files[f].change
  }

  lemma GrewMore(g: Shape, s: H.State, t: H.State, s': H.State, f: nat)
    requires g.Valid() && g.clusterLimit <= |s.t| && f < |s.files| && OnlyGrew(g, s, t, f) && H.Ok(g, t)
    requires s' == t || H.StepsTo(g, t, H.Advance(f), s')
    ensures OnlyGrew(g, s, s', f)
  {
    if s' != t {
      var x := t.files[f];
      if x.pos + 1 == |x.chain| { AppendCosts(g, t.t, x.chain, LowestFree(t.t, 2)); }
    }
  }

  /** Before the limit is reached, a file at the end of its chain finds a free cluster. */
  lemma RoomToAdvance(g: Geometry, s: H.State, f: nat, sector: nat, limit: nat)
    requires g.Valid() && H.Ok(g.shape, s) && f < |s.files| && s.files[f].open
    requires sector < limit && s.files[f].pos == sector / g.clusterSize
    requires limit / g.clusterSize < |s.files[f].chain| + FreeCount(s.t, g.shape.clusterLimit)
    ensures (sector + 1) % g.clusterSize == 0 ==> H.Enabled(g.shape, s, H.Advance(f))
  {
    DivMonotone(sector + 1, limit, g.clusterSize);
    NextQuotient(sector, g.clusterSize);
    FreeCountFindsOne(s.t, g.shape.clusterLimit);
  }

  /** FileWriteEnd is the step Close. */
  method CloseFile(vol: Volume, handles: seq<FileHandle>, f: nat, file: FileHandle, ghost s: H.State)
    returns (ghost s': H.State)
    requires Tracks(vol, handles, s) && H.Enabled(vol.g.shape, s, H.Close(f)) && file == handles[f]
    modifies vol, vol.fatBuffer, vol.sectorBuffer, file`cluster, file`clusterChange
    ensures H.StepsTo(vol.g.shape, s, H.Close(f), s') && Tracks(vol, handles, s')
  {
    s' := Closed(vol.g.shape, s, f);
    Finish(vol, file, s.files[f], s.info);
  }

  /** The step Close. */
  ghost function Closed(g: Shape, s: H.State, f: nat): (s': H.State)
    requires H.Ok(g, s) && H.Enabled(g, s, H.Close(f))
    ensures H.StepsTo(g, s, H.Close(f), s') && H.Ok(g, s')
    ensures var x := s.files[f];
            s' == H.State(CutTable(g, s.t, x.chain, x.pos), s.files[f := H.Session(x.chain[..x.pos + 1], 0, 0, false)],
                          s.info - (x.change - (|x.chain| - x.pos - 1)))
  {
    FilesInTable(g, s);
    H.StepKeepsOk(g, s, H.Close(f));
    H.Apply(g, s, H.Close(f))
  }

  /** FileWriteEnd for one open file x of the heap. */
  method Finish(vol: Volume, file: FileHandle, ghost x: H.Session, ghost info: int)
    requires vol.Valid() && vol.Owns(x.chain) && Follows(vol.g, file, x) && InfoCounts(vol.infoSector, vol.disk, info)
    modifies vol, vol.fatBuffer, vol.sectorBuffer, file`cluster, file`clusterChange
    ensures vol.Valid() && x.pos < |x.chain| && vol.T() == CutTable(vol.g.shape, old(vol.T()), x.chain, x.pos)
    ensures InfoCounts(vol.infoSector, vol.disk, info - (x.change - (|x.chain| - x.pos - 1)))
  {
    vol.FileWriteEnd(file, x.chain);
    InfoSettled(vol.g, old(vol.infoSector), old(vol.disk), vol.infoSector, vol.disk, info, file.clusterChange);
  }

  lemma InfoSettled(g: Geometry, sector: nat, d: Disk, sector': nat, d': Disk, info: int, change: int)
    requires g.Valid() && sector < g.fatStart && InfoCounts(sector, d, info)
    requires OnlyFatChanged(g, InfoWritten(sector, d, change), d')
    requires sector' == if change == 0 || InfoValid(sector, d) then sector else 0
    ensures InfoCounts(sector', d', info - change)
  {
    if InfoValid(sector, d) && change != 0 {
      PutLe32Reads(Rd(d, sector), FREE_COUNT, (Le32(Rd(d, sector), FREE_COUNT) - change) % WORD, 0);
      ModMinus(info, change);
    }
  }

  lemma ModMinus(a: int, b: int)
    ensures (a % WORD - b) % WORD == (a - b) % WORD
  {
  }
}
