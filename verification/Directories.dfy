/** The operations on directories (source/directory.c). */
module Directories {
  import opened Bytes
  import opened Pages
  import opened Layout
  import opened FatEntries
  import opened Chains
  import opened SectorCache
  import opened Fat
  import opened FileBytes
  import opened FileSpec
  import opened Handles
  import opened Names
  import opened Slots
  import opened NumericTails
  import opened Listings
  import opened DirBytes
  import opened Gaps

  // ---- positions ----

  /** What an increment found: the next slot, or the end of the directory; asked to, it extends a
      chain by a cluster of blank slots. */
  ghost predicate Incremented(g: Geometry, s: Snap, t: Snap, dir: nat, i: int, extend: bool, ok: bool, pos: DirPos)
    requires DirOk(g, s, dir) && DirOk(g, t, dir) && i >= -1
  {
    var d := DirSlots(g, s, dir);
    && DirKept(g, s, t, dir)
    && if i + 1 < |d| then ok && t == s && SlotAt(g, t, dir, i + 1, pos)
       else if !extend || dir !in s.fs.chains then !ok && t == s
       else if ok then
         && !Phantom(t.fs.links, t.fs.hint) && SlotAt(g, t, dir, i + 1, pos)
         && DirSlots(g, t, dir) == d + Blanks(g.BytesPerCluster() / 32) && 0 < g.BytesPerCluster() / 32
       else
         FreeSet(t.fs.links) == {} && DirSlots(g, t, dir) == d
  }

  method IncrementDirEntryPosition(partition: Partition, entryPosition: DirPos, extendDirectory: bool, ghost dir: nat,
                                   ghost i: int)
    returns (ok: bool, position: DirPos)
    requires && partition.Valid()
             && DirOk(partition.g, partition.Now(), dir)
             && PosAt(partition.g, partition.Now(), dir, i, entryPosition)
    requires extendDirectory ==> partition.HintOk()
    modifies partition.Repr()
    ensures partition.Valid() && DirOk(partition.g, partition.Now(), dir)
    ensures Incremented(partition.g, old(partition.Now()), partition.Now(), dir, i, extendDirectory, ok, position)
    ensures !ok ==> position == entryPosition
  {
    hide ByteOffset, Geometry.Valid, Cache.Valid, Cache.Touched, FatEntries.Links, Chains.WellFormed, Raw, DirSlots,
         SlotAt, DirKept, FreeSet, Phantom, SnapOk;
    var g := partition.g;
    ghost var s := partition.Now();
    DirKeptRefl(g, s, dir);
    FirstSlot(g, s, dir);
    FirstExists(g, s, dir);
    if i >= 0 { NextOffset(g, s, dir, i, entryPosition); }
    NonZero(g, s, dir);
    position := entryPosition.(offset := entryPosition.offset + 1);
    if position.offset == g.bytesPerSector / 32 {
      NextSector(g, s, dir, i, entryPosition);
      position := position.(offset := 0, sector := position.sector + 1);
      if position.sector == g.sectorsPerCluster && position.cluster != FAT16_ROOT_DIR_CLUSTER {
        ok, position := NextDirCluster(partition, entryPosition, extendDirectory, dir, i);
        return;
      } else if position.cluster == FAT16_ROOT_DIR_CLUSTER && position.sector == g.dataStart - g.rootDirStart {
        return false, entryPosition;
      }
      SlotInside(g, s, dir, i + 1, position);
    } else if i >= 0 {
      SlotInside(g, s, dir, i + 1, position);
    }
    ok := true;
  }

  lemma SlotInside(g: Geometry, s: Snap, dir: nat, i: nat, pos: DirPos)
    requires DirOk(g, s, dir) && SlotAt(g, s, dir, i, pos)
    ensures i < |DirSlots(g, s, dir)|
  {
    SlotRead(g, s, dir, i, pos);
  }

  lemma FirstExists(g: Geometry, s: Snap, dir: nat)
    requires DirOk(g, s, dir)
    ensures 0 < |DirSlots(g, s, dir)|
  {
    FirstSlot(g, s, dir);
    SlotInside(g, s, dir, 0, DirPos(dir, 0, 0));
  }

  lemma NonZero(g: Geometry, s: Snap, dir: nat)
    requires DirOk(g, s, dir)
    ensures g.bytesPerSector / 32 >= 16 && DataFrom(g) <= |s.view| && g.Valid()
  {
    SlotsPerSector(g);
  }

  /** Onto the next cluster of the directory, which may have to be taken. */
  method NextDirCluster(partition: Partition, entryPosition: DirPos, extendDirectory: bool, ghost dir: nat,
                        ghost i: nat)
    returns (ok: bool, position: DirPos)
    requires && partition.Valid()
             && DirOk(partition.g, partition.Now(), dir)
             && SlotAt(partition.g, partition.Now(), dir, i, entryPosition)
    requires && entryPosition.offset + 1 == partition.g.bytesPerSector / 32
             && entryPosition.sector + 1 == partition.g.sectorsPerCluster
    requires dir in partition.chains && (extendDirectory ==> partition.HintOk())
    modifies partition.Repr()
    ensures partition.Valid() && DirOk(partition.g, partition.Now(), dir)
    ensures Incremented(partition.g, old(partition.Now()), partition.Now(), dir, i, extendDirectory, ok, position)
    ensures !ok ==> position == entryPosition
  {
    hide ByteOffset, Geometry.Valid, Cache.Valid, Cache.Touched, FatEntries.Links, Chains.WellFormed, Raw, DirSlots,
         SlotAt, DirKept, FreeSet, Phantom, SnapOk, IsChain, Allocated;
    var g := partition.g;
    ghost var s, chain := partition.Now(), partition.chains[dir];
    DirKeptRefl(g, s, dir);
    ghost var k := NextCluster(g, s, dir, i, entryPosition);
    InChain(g, s, dir, k);
    var tempCluster := partition.NextCluster(entryPosition.cluster);
    if tempCluster == CLUSTER_EOF {
      if extendDirectory {
        tempCluster := partition.LinkFreeClusterCleared(entryPosition.cluster, dir);
        NowIsSnap(partition);
        DirAfterAlloc(g, s, partition.Now(), dir, i, entryPosition.cluster, tempCluster);
        if !g.IsValidCluster(tempCluster) { return false, entryPosition; }
      } else {
        return false, entryPosition;
      }
    }
    ok, position := true, DirPos(tempCluster, 0, 0);
  }

  lemma NowIsSnap(partition: Partition)
    requires partition.Valid()
    ensures SnapOk(partition.g, partition.Now())
  {
  }

  lemma InChain(g: Geometry, s: Snap, dir: nat, k: nat)
    requires SnapOk(g, s) && dir in s.fs.chains && k < |s.fs.chains[dir]|
    ensures var chain, c := s.fs.chains[dir], s.fs.chains[dir][k];
            && g.IsValidCluster(c) && c in chain && InRange(s.fs.links, c)
            && s.fs.links[c] == (if k + 1 == |chain| then CLUSTER_EOF else chain[k + 1])
            && (k + 1 < |chain| ==> g.IsValidCluster(chain[k + 1]) && chain[k + 1] != CLUSTER_EOF)
            && (k + 1 == |chain| ==> !AlreadyLinked(s.fs.links, c))
  {
    ChainUsable(g, s, dir);
    GeometryBounds(g);
    LinkInChain(s.fs.links, s.fs.chains[dir], k);
  }

  /** The directory after the attempt to extend it. */
  lemma DirAfterAlloc(g: Geometry, s: Snap, t: Snap, dir: nat, i: nat, last: nat, c: nat)
    requires DirOk(g, s, dir) && dir in s.fs.chains && !Phantom(s.fs.links, s.fs.hint) && last != CLUSTER_FREE
    requires Allocated(g, s.fs, t.fs, last, dir, c) && SnapOk(g, t)
    requires 32 * (i + 1) == Start(g, |s.fs.chains[dir]|)
    requires c == CLUSTER_ERROR ==> t.view == s.view
    requires c != CLUSTER_ERROR ==>
               g.IsValidCluster(c) && exists v :: SameData(g, s.view, v) && ClusterFits(g, v, c)
                                        && t.view == Splice(v, g.ClusterAddr(c), Zeros(g.BytesPerCluster()))
    ensures DirOk(g, t, dir) && (g.IsValidCluster(c) <==> c != CLUSTER_ERROR)
    ensures g.IsValidCluster(c) ==> Incremented(g, s, t, dir, i, true, true, DirPos(c, 0, 0))
    ensures !g.IsValidCluster(c) ==>
              DirKept(g, s, t, dir) && FreeSet(t.fs.links) == {} && DirSlots(g, t, dir) == DirSlots(g, s, dir)
  {
    hide ByteOffset, Geometry.Valid, Chains.WellFormed, Raw, DirKept, FreeSet, SlotAt;
    GeometryBounds(g);
    DirSize(g, s, dir);
    if c == CLUSTER_ERROR {
      FullDisc(g, s, t, dir, last, c);
    } else {
      GrownByAlloc(g, s.fs, t.fs, last, dir, c);
      var v :| SameData(g, s.view,
                        v) && ClusterFits(g, v, c) && t.view == Splice(v, g.ClusterAddr(c), Zeros(g.BytesPerCluster()));
      ExtendedDir(g, s, t, dir, c, v);
      NewFirst(g, t, dir, i + 1, |s.fs.chains[dir]|);
    }
  }

  lemma FullDisc(g: Geometry, s: Snap, t: Snap, dir: nat, last: nat, c: nat)
    requires DirOk(g, s, dir) && !Phantom(s.fs.links, s.fs.hint) && t.view == s.view && SnapOk(g, t)
    requires Allocated(g, s.fs, t.fs, last, dir, c) && c == CLUSTER_ERROR
    ensures DirKept(g, s, t, dir) && FreeSet(t.fs.links) == {} && DirSlots(g, t, dir) == DirSlots(g, s, dir)
  {
    hide ByteOffset, Chains.WellFormed, Raw;
    RootAreaFits(g);
  }

  lemma NewFirst(g: Geometry, t: Snap, dir: nat, i: nat, k: nat)
    requires DirOk(g, t, dir) && dir in t.fs.chains && k < |t.fs.chains[dir]| && 32 * i == Start(g, k)
    ensures SlotAt(g, t, dir, i, DirPos(t.fs.chains[dir][k], 0, 0))
  {
    hide ByteOffset, Chains.WellFormed;
    GeometryBounds(g);
    OffsetMono(0, 0, g.bytesPerSector);
    assert StandsAt(g, t.fs.chains[dir], k, FilePosition(t.fs.chains[dir][k], 0, 0), 32 * i);
  }

  // ---- one slot ----

  method ReadSlot(partition: Partition, pos: DirPos, ghost dir: nat, ghost i: nat) returns (entryData: Slot)
    requires && partition.Valid()
             && DirOk(partition.g, partition.Now(), dir)
             && SlotAt(partition.g, partition.Now(), dir, i, pos)
    modifies partition.cache.Repr()
    ensures partition.Valid() && partition.Now() == old(partition.Now()) && DirOk(partition.g, partition.Now(), dir)
    ensures && i < |DirSlots(partition.g, partition.Now(), dir)|
            && entryData == DirSlots(partition.g, partition.Now(), dir)[i]
  {
    hide ByteOffset, Geometry.Valid, Cache.Valid, Cache.Touched, FatEntries.Links, Chains.WellFormed, Raw, DirSlots,
         SlotAt, SnapOk;
    SlotRead(partition.g, partition.Now(), dir, i, pos);
    var ok;
    ok, entryData := partition.cache.ReadPartialSector(partition.g.ClusterToSector(pos.cluster) + pos.sector,
                                                       pos.offset * 32, 32);
  }

  method WriteSlot(partition: Partition, pos: DirPos, entryData: Slot, ghost dir: nat, ghost i: nat)
    requires && partition.Valid()
             && DirOk(partition.g, partition.Now(), dir)
             && SlotAt(partition.g, partition.Now(), dir, i, pos)
    requires |entryData| == SLOT_SIZE
    modifies partition.cache.Repr()
    ensures && partition.Valid()
            && partition.Fs() == old(partition.Fs())
            && DirKept(partition.g, old(partition.Now()), partition.Now(), dir)
    ensures i < |DirSlots(partition.g, old(partition.Now()), dir)|
    ensures DirSlots(partition.g, partition.Now(), dir)
            == DirSlots(partition.g, old(partition.Now()), dir)[i := entryData]
  {
    hide ByteOffset, Geometry.Valid, Cache.Valid, Cache.Touched, FatEntries.Links, Chains.WellFormed, Raw, DirSlots,
         SlotAt, SnapOk, Splice, DirKept;
    ghost var s := partition.Now();
    SlotRead(partition.g, s, dir, i, pos);
    partition.WritePartialSector(entryData, partition.g.ClusterToSector(pos.cluster) + pos.sector, pos.offset * 32);
    SlotWrite(partition.g, s, partition.Now(), dir, i, pos, entryData);
    KeptOk(partition.g, s, partition.Now(), dir);
  }

  lemma KeptOk(g: Geometry, s: Snap, t: Snap, dir: nat)
    requires DirKept(g, s, t, dir)
    ensures DirOk(g, s, dir) && DirOk(g, t, dir)
    ensures dir in s.fs.chains <==> dir in t.fs.chains
  {
  }

  // ---- the enumerator ----

  /** A long-name slot: starts a name, continues it, or breaks it off; its units go to the buffer. */
  method TakeLfn(lfn: array<nat>, entryData: Slot, exists0: bool, chkSum0: nat, ghost st: Lfn, ghost i: nat)
    returns (lfnExists: bool, lfnChkSum: nat, started: bool)
    requires && lfn.Length == MAX_LFN_LENGTH
             && |entryData| == SLOT_SIZE
             && st.buf == lfn[..]
             && st.found == exists0
             && st.chkSum == chkSum0
    requires LfnDefined(st, entryData)
    modifies lfn
    ensures var st' := StepLfn(st, entryData, i);
            && lfn[..] == st'.buf && lfnExists == st'.found && lfnChkSum == st'.chkSum
            && st'.start == if started then i else st.start
    ensures lfnExists && !started ==> exists0
  {
    hide Units;
    var ord: nat := entryData[0];
    lfnExists, lfnChkSum, started := exists0, chkSum0, false;
    if ord >= LFN_DEL {
      lfnExists := false;
    } else if ord >= LFN_END {
      started, lfnExists := true, true;
      var end := ord % LFN_END * 13;
      if end > MAX_LFN_LENGTH - 1 { end := MAX_LFN_LENGTH - 1; }
      lfn[end] := 0;
      lfnChkSum := entryData[LFN_offset_checkSum];
    }
    if lfnChkSum != entryData[LFN_offset_checkSum] as nat { lfnExists := false; }
    ghost var st1 := Opened(st, entryData, i);
    assert && lfn[..] == st1.buf
           && lfnChkSum == st1.chkSum
           && (started ==> st1.start == i)
           && (!started ==> st1.start == st.start);
    if lfnExists {
      var lfnPos := (ord % LFN_END - 1) * 13;
      PutPart(lfn, lfnPos, entryData);
    }
  }

  method PutPart(lfn: array<nat>, lfnPos: nat, entryData: Slot)
    requires lfn.Length == MAX_LFN_LENGTH && |entryData| == SLOT_SIZE
    modifies lfn
    ensures lfn[..] == PutUnits(old(lfn[..]), lfnPos, Units(entryData))
  {
    hide ToU16;
    ghost var was, units := lfn[..], Units(entryData);
    var i := 0;
    while i < 13
      invariant 0 <= i <= 13
      invariant forall p :: 0 <= p < lfn.Length ==>
                  lfn[p] == if lfnPos <= p < lfnPos + i && p < MAX_LFN_LENGTH - 1 then units[p - lfnPos] else was[p]
    {
      if lfnPos + i < MAX_LFN_LENGTH - 1 {
        lfn[lfnPos + i] := ToU16(entryData, UnitOffset(i));
      }
      i := i + 1;
    }
    assert lfn[..] == PutUnits(was, lfnPos, units);
  }

  /** The position a search starts from: the root directory may be named by 0. */
  function Rooted(g: Geometry, pos: DirPos): DirPos {
    if pos.cluster == FAT16_ROOT_DIR_CLUSTER then pos.(cluster := g.rootDirCluster) else pos
  }

  /** What the search for the next entry reports, against the outcome on slots. */
  ghost predicate Reported(g: Geometry, s: Snap, dir: nat, o: Outcome, found: bool, start: DirPos, end: DirPos,
                           data: Slot, name: Text)
    requires DirOk(g, s, dir)
  {
    match o
    case Undefined => false
    case NotFound => !found
    case Found(i, j, n) =>
      && found
      && SlotAt(g, s, dir, i, start)
      && SlotAt(g, s, dir, j, end)
      && j < |DirSlots(g, s, dir)|
      && data == DirSlots(g, s, dir)[j]
      && name == n
  }

  /** The next entry is defined, whatever the buffer for the name holds at first. */
  ghost predicate SearchDefined(d: seq<Slot>, i: nat)
    requires AllSlots(d)
  {
    forall b: Text {:trigger Fresh(b)} :: |b| == MAX_LFN_LENGTH ==> Scan(d, i, Fresh(b)) != Undefined
  }

  /** _FAT_directory_getNextEntry: the entry behind slot i that the search on slots finds. */
  method GetNextEntry(partition: Partition, dataEnd: DirPos, ghost dir: nat, ghost i: int)
    returns (found: bool, entryStart: DirPos, entryEnd: DirPos, entryData: Slot, filename: Text, ghost buf: Text)
    requires && partition.Valid()
             && DirOk(partition.g, partition.Now(), dir)
             && PosAt(partition.g, partition.Now(), dir, i, Rooted(partition.g, dataEnd))
    requires SearchDefined(DirSlots(partition.g, partition.Now(), dir), i + 1)
    modifies partition.Repr()
    ensures && partition.Valid()
            && partition.Now() == old(partition.Now())
            && DirOk(partition.g, partition.Now(), dir)
            && |buf| == MAX_LFN_LENGTH
    ensures Reported(partition.g, partition.Now(), dir,
                     Scan(DirSlots(partition.g, partition.Now(), dir), i + 1, Fresh(buf)),
                     found, entryStart, entryEnd, entryData, filename)
  {
    hide ByteOffset, Geometry.Valid, Cache.Valid, Cache.Touched, FatEntries.Links, Chains.WellFormed, Raw, DirSlots,
         SlotAt, SnapOk, DirKept, StepLfn, TakeEntry, KindOf, LfnDefined;
    ghost var s, d := partition.Now(), DirSlots(partition.g, partition.Now(), dir);
    FirstExists(partition.g, s, dir);
    if i >= 0 { SlotInside(partition.g, s, dir, i, Rooted(partition.g, dataEnd)); }
    var lfn: array<nat> := new nat[MAX_LFN_LENGTH];
    buf := lfn[..];
    var lfnExists, lfnChkSum := false, 0;
    entryStart, entryEnd, entryData, filename := Rooted(partition.g, dataEnd), Rooted(partition.g, dataEnd), [], [];
    ghost var st, p, goal := Fresh(buf), i, Scan(d, i + 1, Fresh(buf));
    found := false;
    var notFound := false;
    while !found && !notFound
      invariant partition.Valid() && partition.Now() == s && -1 <= p < |d| && PosAt(partition.g, s, dir, p, entryEnd)
      invariant && lfn.Length == MAX_LFN_LENGTH
                && st.buf == lfn[..]
                && (!found ==> st.found == lfnExists)
                && st.chkSum == lfnChkSum
      invariant lfnExists && !found ==> SlotAt(partition.g, s, dir, st.start, entryStart)
      invariant goal == Scan(d, i + 1, Fresh(buf)) && goal != Undefined
      invariant found ==> Reported(partition.g, s, dir, goal, found, entryStart, entryEnd, entryData, filename)
      invariant notFound ==> goal == NotFound
      invariant !found && !notFound ==> goal == Scan(d, p + 1, st)
      decreases !found && !notFound, |d| - p
    {
      var ok;
      ok, entryEnd := IncrementDirEntryPosition(partition, entryEnd, false, dir, p);
      if !ok {
        notFound := true;
        break;
      }
      p := p + 1;
      entryData := ReadSlot(partition, entryEnd, dir, p);
      ScanOne(d, p, st);
      if IsLfn(entryData) {
        var started;
        lfnExists, lfnChkSum, started := TakeLfn(lfn, entryData, lfnExists, lfnChkSum, st, p);
        if started { entryStart := entryEnd; }
        st := StepLfn(st, entryData, p);
      } else if IsVolume(entryData) {
      } else if entryData[0] as nat == DIR_ENTRY_LAST {
        notFound := true;
      } else if entryData[0] as nat != DIR_ENTRY_FREE && entryData[0] > 0x20 {
        lfnExists, filename := NameOfEntry(lfn, entryData, lfnExists, lfnChkSum, st, p);
        if !lfnExists { entryStart := entryEnd; }
        found := true;
      }
    }
  }

  /** One slot of a search. */
  lemma ScanOne(d: seq<Slot>, i: nat, st: Lfn)
    requires AllSlots(d) && i < |d| && |st.buf| == MAX_LFN_LENGTH && Scan(d, i, st) != Undefined
    ensures IsLfn(d[i]) ==>
              && LfnDefined(st, d[i])
              && |StepLfn(st, d[i], i).buf| == MAX_LFN_LENGTH
              && Scan(d, i, st) == Scan(d, i + 1, StepLfn(st, d[i], i))
    ensures !IsLfn(d[i]) ==>
              if IsVolume(d[i]) then Scan(d, i, st) == Scan(d, i + 1, st)
              else if d[i][0] as nat == DIR_ENTRY_LAST then Scan(d, i, st) == NotFound
              else if d[i][0] as nat != DIR_ENTRY_FREE && d[i][0] > 0x20 then Scan(d, i, st) == TakeEntry(d[i], i, st)
              else Scan(d, i, st) == Scan(d, i + 1, st)
  {
  }

  /** The long name, if one was collected and its checksum fits, or else the alias. */
  method NameOfEntry(lfn: array<nat>, entryData: Slot, exists0: bool, lfnChkSum: nat, ghost st: Lfn, ghost i: nat)
    returns (lfnExists: bool, filename: Text)
    requires && lfn.Length == MAX_LFN_LENGTH
             && |entryData| == SLOT_SIZE
             && st.buf == lfn[..]
             && st.found == exists0
             && st.chkSum == lfnChkSum
    requires TakeEntry(entryData, i, st) != Undefined && entryData[0] as nat != DIR_ENTRY_FREE
    ensures TakeEntry(entryData, i, st) == Found(if lfnExists then st.start else i, i, filename)
    ensures lfnExists ==> exists0
  {
    lfnExists := exists0;
    if lfnExists {
      var chkSum := AliasChecksum(entryData);
      if chkSum != lfnChkSum { lfnExists := false; }
    }
    if lfnExists {
      filename := CopyText(lfn);
    } else {
      filename := EntryGetAlias(entryData);
    }
  }

  /** The units up to the first zero. */
  method CopyText(lfn: array<nat>) returns (name: Text)
    requires |UntilZero(lfn[..])| < lfn.Length
    ensures name == UntilZero(lfn[..])
  {
    name := [];
    ghost var u := UntilZero(lfn[..]);
    while lfn[|name|] != 0
      invariant |name| <= |u| && name == u[..|name|]
      decreases |u| - |name|
    {
      name := name + [lfn[|name|]];
    }
  }

  // ---- names in a directory ----

  /** The slots of the directory are those of a list of items, with the end behind them. */
  ghost predicate Contains(g: Geometry, s: Snap, dir: nat, items: seq<Item>, rest: seq<Slot>) {
    DirOk(g, s, dir) && Listings.WellFormed(DirSlots(g, s, dir), items, rest)
  }

  /** dirCluster names the directory; 0 may stand for the root. */
  predicate Means(g: Geometry, dirCluster: nat, dir: nat) {
    dirCluster == dir || (dirCluster == FAT16_ROOT_DIR_CLUSTER && dir == g.rootDirCluster)
  }

  method GetFirstEntry(partition: Partition, dirCluster: nat, ghost dir: nat)
    returns (found: bool, entryStart: DirPos, entryEnd: DirPos, entryData: Slot, filename: Text, ghost buf: Text)
    requires partition.Valid() && DirOk(partition.g, partition.Now(), dir) && Means(partition.g, dirCluster, dir)
    requires SearchDefined(DirSlots(partition.g, partition.Now(), dir), 0)
    modifies partition.Repr()
    ensures && partition.Valid()
            && partition.Now() == old(partition.Now())
            && DirOk(partition.g, partition.Now(), dir)
            && |buf| == MAX_LFN_LENGTH
    ensures Reported(partition.g, partition.Now(), dir,
                     Scan(DirSlots(partition.g, partition.Now(), dir), 0, Fresh(buf)),
                     found, entryStart, entryEnd, entryData, filename)
  {
    hide ByteOffset, Geometry.Valid, Cache.Valid, Cache.Touched, FatEntries.Links, Chains.WellFormed, Raw, DirSlots,
         SlotAt, SnapOk, Scan;
    RootIsItself(partition.g, partition.Now(), dirCluster, dir);
    found, entryStart, entryEnd, entryData, filename, buf := GetNextEntry(partition, DirPos(dirCluster, 0, -1), dir,
                                                                          -1);
  }

  lemma RootIsItself(g: Geometry, s: Snap, dirCluster: nat, dir: nat)
    requires DirOk(g, s, dir) && Means(g, dirCluster, dir)
    ensures Rooted(g, DirPos(dirCluster, 0, -1)) == DirPos(dir, 0, -1)
  {
    hide ByteOffset, Chains.WellFormed;
    NoChainAtFree(g, s);
  }

  lemma SearchIsDefined(d: seq<Slot>, items: seq<Item>, rest: seq<Slot>, b: nat)
    requires Listings.WellFormed(d, items, rest) && b <= |items| && AllSlots(d)
    ensures SearchDefined(d, |Flat(items[..b])|)
  {
    hide Flat, Scan, Listing, GroupName;
    forall buf: Text | |buf| == MAX_LFN_LENGTH ensures Scan(d, |Flat(items[..b])|, Fresh(buf)) != Undefined {
      var m := NextGroup(d, items, rest, b, buf);
    }
  }

  /** _FAT_directory_entryExists: is the name that of an entry or of its alias, up to case? */
  method EntryExists(partition: Partition, name: Text, dirCluster: nat, ghost dir: nat, ghost items: seq<Item>,
                     ghost rest: seq<Slot>)
    returns (exists_: bool)
    requires && partition.Valid()
             && Contains(partition.g, partition.Now(), dir, items, rest)
             && Means(partition.g, dirCluster, dir)
    modifies partition.Repr()
    ensures partition.Valid() && partition.Now() == old(partition.Now())
    ensures exists_ <==> Taken(Listing(items), name)
  {
    hide ByteOffset, Geometry.Valid, Cache.Valid, Cache.Touched, FatEntries.Links, Chains.WellFormed, Raw, DirSlots,
         SlotAt, SnapOk, Scan, Flat, Listing, Taken, SameName, GroupName, SlotAlias, Listings.WellFormed, GroupOk;
    ghost var g, s, d := partition.g, partition.Now(), DirSlots(partition.g, partition.Now(), dir);
    FlatNone();
    ListingNone();
    NothingTaken(name);
    ghost var b, m := 0, 0;
    assert items[..0] == [];
    SearchIsDefined(d, items, rest, 0);
    var found, entryStart, entryEnd, entryData, filename;
    ghost var buf;
    found, entryStart, entryEnd, entryData, filename, buf := GetFirstEntry(partition, dirCluster, dir);
    m := NextGroup(d, items, rest, b, buf);
    if found { SlotsOfGroup(items[m].lfns, items[m].alias); }
    while found
      invariant partition.Valid() && partition.Now() == s && b <= |items|
      invariant !Taken(Listing(items[..b]), name)
      invariant !found ==> Listing(items) == Listing(items[..b])
      invariant found ==>
                  && b <= m < |items|
                  && items[m].Group?
                  && GroupOk(items[m].lfns, items[m].alias)
                  && AllSlots(items[m].lfns)
                  && |items[m].alias| == SLOT_SIZE
                  && filename == GroupName(items[m].lfns, items[m].alias)
                  && entryData == items[m].alias
                  && |Flat(items[..m + 1])| > 0 && SlotAt(g, s, dir, |Flat(items[..m + 1])| - 1, entryEnd)
                  && Listing(items[..m + 1]) == Listing(items[..b]) + [ListedAs(filename, entryData)]
      decreases |items| - b
    {
      TakenPush(Listing(items[..b]), ListedAs(filename, entryData), name);
      EntryIsNotFree(items[m].lfns, items[m].alias);
      var alias := EntryGetAlias(entryData);
      if SameName(name, filename) || SameName(name, alias) {
        TakenMore(items, m + 1, name);
        return true;
      }
      b := m + 1;
      SearchIsDefined(d, items, rest, b);
      RootedSlot(g, s, dir, |Flat(items[..b])| - 1, entryEnd);
      found, entryStart, entryEnd, entryData, filename, buf := GetNextEntry(partition, entryEnd, dir,
                                                                            |Flat(items[..b])| - 1);
      m := NextGroup(d, items, rest, b, buf);
      if found { SlotsOfGroup(items[m].lfns, items[m].alias); }
    }
    exists_ := false;
  }

  lemma EntryIsNotFree(lfns: seq<Slot>, alias: Slot)
    requires GroupOk(lfns, alias)
    ensures |alias| == SLOT_SIZE && alias[0] as nat != DIR_ENTRY_FREE
  {
  }

  lemma NothingTaken(t: Text)
    ensures !Taken([], t)
  {
  }

  lemma TakenMore(items: seq<Item>, b: nat, t: Text)
    requires b <= |items| && Taken(Listing(items[..b]), t)
    ensures Taken(Listing(items), t)
  {
    hide SameName, Listing;
    assert items[..b] + items[b..] == items;
    ListingJoin(items[..b], items[b..]);
    var l := Listing(items[..b]);
    var k :| 0 <= k < |l| && (SameName(t, l[k].name) || SameName(t, l[k].alias));
    assert Listing(items)[k] == l[k];
  }

  lemma RootedSlot(g: Geometry, s: Snap, dir: nat, i: nat, pos: DirPos)
    requires DirOk(g, s, dir) && SlotAt(g, s, dir, i, pos)
    ensures Rooted(g, pos) == pos
  {
    hide ByteOffset, Chains.WellFormed;
    if dir in s.fs.chains { ChainPlace(g, s, dir, i, pos); }
  }

  // ---- removing ----

  /** _FAT_directory_removeEntry: marks every slot from dataStart to dataEnd as free.  The position is
      advanced once more behind the last one, so that the result is false, though all was done, when
      the entry ends in the very last slot of the directory. */
  method RemoveEntry(partition: Partition, dataStart: DirPos, dataEnd: DirPos, ghost dir: nat, ghost first: nat,
                     ghost last: nat)
    returns (ok: bool)
    requires partition.Valid() && DirOk(partition.g, partition.Now(), dir) && first <= last
    requires && SlotAt(partition.g, partition.Now(), dir, first, dataStart)
             && SlotAt(partition.g, partition.Now(), dir, last, dataEnd)
    modifies partition.Repr()
    ensures && partition.Valid()
            && DirKept(partition.g, old(partition.Now()), partition.Now(), dir)
            && partition.Fs() == old(partition.Fs())
    ensures Marked(DirSlots(partition.g, old(partition.Now()), dir), DirSlots(partition.g, partition.Now(), dir),
                   first, last - first + 1)
    ensures && last < |DirSlots(partition.g, partition.Now(), dir)|
            && (ok <==> last + 1 < |DirSlots(partition.g, partition.Now(), dir)|)
  {
    hide ByteOffset, Geometry.Valid, Cache.Valid, Cache.Touched, FatEntries.Links, Chains.WellFormed, Raw, DirSlots,
         SlotAt, SnapOk, DirKept, KindOf;
    ghost var g, s, d := partition.g, partition.Now(), DirSlots(partition.g, partition.Now(), dir);
    SlotInside(g, s, dir, last, dataEnd);
    DirKeptRefl(g, s, dir);
    var entryStart := dataStart;
    var entryStillValid, finished := true, false;
    ghost var p: nat := first;
    while entryStillValid && !finished
      invariant && partition.Valid()
                && DirKept(g, s, partition.Now(), dir)
                && partition.Fs() == s.fs
                && DirOk(g, partition.Now(), dir)
      invariant && first <= p <= last + 1
                && (finished <==> p == last + 1)
                && Marked(d, DirSlots(g, partition.Now(), dir), first, p - first)
      invariant entryStillValid <==> p < |d|
      invariant !finished ==> SlotAt(g, partition.Now(), dir, p, entryStart)
      decreases last + 1 - p
    {
      SlotsStay(g, s, partition.Now(), dir, last, dataEnd);
      OnePosition(g, partition.Now(), dir, p, entryStart, last, dataEnd);
      var entryData := ReadSlot(partition, entryStart, dir, p);
      entryData := entryData[0 := DIR_ENTRY_FREE];
      ghost var t := partition.Now();
      WriteSlot(partition, entryStart, entryData, dir, p);
      DirKeptTrans(g, s, t, partition.Now(), dir);
      KeptOk(g, t, partition.Now(), dir);
      SlotsStay(g, t, partition.Now(), dir, p, entryStart);
      MarkNext(d, DirSlots(g, t, dir), DirSlots(g, partition.Now(), dir), first, p);
      if entryStart == dataEnd { finished := true; }
      ghost var u := partition.Now();
      entryStillValid, entryStart := IncrementDirEntryPosition(partition, entryStart, false, dir, p);
      p := p + 1;
    }
    ok := entryStillValid;
  }

  lemma MarkNext(d: seq<Slot>, e: seq<Slot>, e': seq<Slot>, s: nat, p: nat)
    requires s <= p < |d| && Marked(d, e, s, p - s) && AllSlots(e) && e' == e[p := Freed(e[p])]
    ensures Marked(d, e', s, p - s + 1)
  {
  }

  /** Positions depend on the chains alone. */
  lemma SlotsStay(g: Geometry, s: Snap, t: Snap, dir: nat, i: nat, pos: DirPos)
    requires DirOk(g, s, dir) && DirOk(g, t, dir) && SlotAt(g, s, dir, i, pos) && t.fs == s.fs
    ensures SlotAt(g, t, dir, i, pos)
  {
  }

  // ---- finding room ----

  /** The scan. */
  method ScanForGap(partition: Partition, dirCluster: nat, size: nat, ghost dir: nat)
    returns (valid: bool, atEnd: bool, gapStart: DirPos, gapEnd: DirPos, remain: nat, ghost s: nat, ghost i: nat)
    requires && partition.Valid()
             && DirOk(partition.g, partition.Now(), dir)
             && dirCluster == dir
             && partition.HintOk()
             && 0 < size
    modifies partition.Repr()
    ensures && partition.Valid()
            && DirKept(partition.g, old(partition.Now()), partition.Now(), dir)
            && DirOk(partition.g, partition.Now(), dir)
    ensures var d, t := DirSlots(partition.g, old(partition.Now()), dir), DirSlots(partition.g, partition.Now(), dir);
            && (!valid ==> t == d && MetNone(d, size) && (dir in partition.chains ==> FreeSet(partition.Links()) == {}))
            && (valid ==>
                  && partition.HintOk()
                  && SlotAt(partition.g, partition.Now(), dir, s, gapStart)
                  && SlotAt(partition.g, partition.Now(), dir, i, gapEnd))
            && (valid && atEnd ==> MetEnd(d, t, size, i, remain, s) && remain < size)
            && (valid && !atEnd ==> remain == 0 && MetGap(d, t, size, i, s))
  {
    hide ByteOffset, Geometry.Valid, Cache.Valid, Cache.Touched, FatEntries.Links, Chains.WellFormed, Raw, DirSlots,
         SlotAt, SnapOk, DirKept, KindOf, FreeSet, Phantom, Scanning, MetEnd, MetGap, MetNone, EndsAt, NoRun,
         TrailStart;
    ghost var g, s0, d := partition.g, partition.Now(), DirSlots(partition.g, partition.Now(), dir);
    FirstSlot(g, s0, dir);
    FirstExists(g, s0, dir);
    DirKeptRefl(g, s0, dir);
    gapEnd := DirPos(dirCluster, 0, 0);
    gapStart, valid, remain, atEnd, s, i := gapEnd, true, size, false, 0, 0;
    ScanStarts(d, size);
    while valid && !atEnd && remain > 0
      invariant partition.Valid() && DirKept(g, s0, partition.Now(), dir) && DirOk(g, partition.Now(), dir)
      invariant valid ==> partition.HintOk() && SlotAt(g, partition.Now(), dir, i, gapEnd)
      invariant valid && (atEnd || remain < size) ==> SlotAt(g, partition.Now(), dir, s, gapStart)
      invariant remain <= size && i <= |d|
      invariant valid && !atEnd && remain > 0 ==> Scanning(d, DirSlots(g, partition.Now(), dir), size, i, remain, s)
      invariant valid && atEnd ==> MetEnd(d, DirSlots(g, partition.Now(), dir), size, i, remain, s) && remain < size
      invariant valid && !atEnd && remain == 0 ==> MetGap(d, DirSlots(g, partition.Now(), dir), size, i, s)
      invariant !valid ==>
                  && DirSlots(g, partition.Now(), dir) == d
                  && MetNone(d, size)
                  && (dir in partition.chains ==> FreeSet(partition.Links()) == {})
      decreases valid && !atEnd && remain > 0, |d| - i
    {
      ghost var t := DirSlots(g, partition.Now(), dir);
      var entryData := ReadSlot(partition, gapEnd, dir, i);
      ScanSlot(d, t, size, i, remain, s);
      if IsLast(entryData) {
        if remain == size { gapStart := gapEnd; s := i; }
        remain := remain - 1;
        atEnd := true;
      } else if IsFree(entryData) {
        if remain == size { gapStart := gapEnd; s := i; }
        remain := remain - 1;
      } else {
        remain := size;
      }
      if !atEnd && remain > 0 {
        ghost var u := partition.Now();
        valid, gapEnd := IncrementDirEntryPosition(partition, gapEnd, true, dir, i);
        AfterIncrement(g, s0, u, partition.Now(), dir, i, valid, gapEnd, gapStart, s, remain < size);
        ScanOn(d, t, DirSlots(g, partition.Now(), dir), size, i, remain, s);
        i := i + 1;
      }
    }
  }

  /** The directory and the positions after a step onto the next slot. */
  lemma AfterIncrement(g: Geometry, s: Snap, u: Snap, t: Snap, dir: nat, i: nat, ok: bool, pos: DirPos, start: DirPos,
                       k: nat, started: bool)
    requires DirKept(g, s, u, dir) && DirOk(g, u, dir) && DirOk(g, t, dir) && DirSlots(g, u, dir) == DirSlots(g, s, dir)
    requires && Incremented(g, u, t, dir, i, true, ok, pos)
             && (started ==> SlotAt(g, u, dir, k, start))
             && !Phantom(u.fs.links, u.fs.hint)
    ensures DirKept(g, s, t, dir) && (started ==> SlotAt(g, t, dir, k, start))
    ensures var d, d' := DirSlots(g, s, dir), DirSlots(g, t, dir);
            && i < |d| ==>
                 && (d' == d || (i + 1 == |d| && exists n :: d' == d + Blanks(n)))
                 && (ok ==> SlotAt(g, t, dir, i + 1, pos) && !Phantom(t.fs.links, t.fs.hint) && i + 1 < |d'|)
                 && (!ok ==> d' == d && i + 1 == |d| && (dir in t.fs.chains ==> FreeSet(t.fs.links) == {}))
  {
    hide ByteOffset, Geometry.Valid, Chains.WellFormed, Raw, DirSlots, SnapOk, FreeSet, Phantom;
    DirKeptTrans(g, s, u, t, dir);
    if started { SlotStaysAhead(g, u, t, dir, k, start); }
    if ok { SlotInside(g, t, dir, i + 1, pos); }
    assert i < |DirSlots(g, s, dir)| ==> i + 1 <= |DirSlots(g, u, dir)|;
  }

  /** A position stays that of its slot when the chain grows. */
  lemma SlotStaysAhead(g: Geometry, s: Snap, t: Snap, dir: nat, i: nat, pos: DirPos)
    requires DirKept(g, s, t, dir) && SlotAt(g, s, dir, i, pos)
    ensures SlotAt(g, t, dir, i, pos)
  {
    hide ByteOffset, Chains.WellFormed, Raw, StandsAt;
    if dir in s.fs.chains { DenotesGrows(g, s.fs.chains[dir], t.fs.chains[dir], AsFile(pos), 32 * i); }
  }

  /** Blanks the slots that follow the end, one more than are wanted, extending the directory where
      needed.  When that fails the last slot of the directory is blanked once more. */
  method MakeRoom(partition: Partition, atPos: DirPos, remain: nat, ghost dir: nat, ghost d: seq<Slot>, ghost e: nat,
                  ghost size: nat, ghost s: nat, start: DirPos)
    returns (valid: bool, dataEnd: DirPos)
    requires && partition.Valid()
             && DirOk(partition.g, partition.Now(), dir)
             && partition.HintOk()
             && SlotAt(partition.g, partition.Now(), dir, e, atPos)
    requires SlotAt(partition.g, partition.Now(), dir, s, start)
    requires MetEnd(d, DirSlots(partition.g, partition.Now(), dir), size, e, remain, s) && remain < size
    modifies partition.Repr()
    ensures && partition.Valid()
            && DirKept(partition.g, old(partition.Now()), partition.Now(), dir)
            && DirOk(partition.g, partition.Now(), dir)
    ensures Blanked(d, DirSlots(partition.g, partition.Now(), dir), e, e)
    ensures valid ==>
              && partition.HintOk() && RoomAtEnd(d, DirSlots(partition.g, partition.Now(), dir), s, size, e)
              && SlotAt(partition.g, partition.Now(), dir, s, start)
              && SlotAt(partition.g, partition.Now(), dir, s + size - 1, dataEnd)
    ensures !valid ==>
              && |DirSlots(partition.g, partition.Now(), dir)| <= s + size
              && (dir in partition.chains ==> FreeSet(partition.Links()) == {})
  {
    hide ByteOffset, Geometry.Valid, Cache.Valid, Cache.Touched, FatEntries.Links, Chains.WellFormed, Raw, DirSlots,
         SlotAt, SnapOk, DirKept, KindOf, FreeSet, Phantom, MetEnd, EndsAt, Blanked, RoomAtEnd;
    ghost var g, s0 := partition.g, partition.Now();
    DirKeptRefl(g, s0, dir);
    MetBlanked(d, DirSlots(g, s0, dir), size, e, remain, s);
    var gapEnd := atPos;
    dataEnd := atPos;
    ghost var j: nat := e;
    var dirEntryRemain := remain + 1;
    valid := true;
    while dirEntryRemain > 0 && valid
      invariant partition.Valid() && DirKept(g, s0, partition.Now(), dir) && DirOk(g, partition.Now(), dir)
      invariant Blanked(d, DirSlots(g, partition.Now(), dir), e, j) && SlotAt(g, partition.Now(), dir, j, gapEnd)
      invariant valid ==> partition.HintOk() && 0 <= dirEntryRemain && j + dirEntryRemain == s + size
      invariant SlotAt(g, partition.Now(), dir, s, start)
      invariant valid && j > e ==> SlotAt(g, partition.Now(), dir, j - 1, dataEnd)
      invariant !valid ==>
                  && |DirSlots(g, partition.Now(), dir)| <= s + size
                  && (dir in partition.chains ==> FreeSet(partition.Links()) == {})
      decreases dirEntryRemain
    {
      dataEnd := gapEnd;
      ghost var u := partition.Now();
      valid, gapEnd := IncrementDirEntryPosition(partition, gapEnd, true, dir, j);
      ghost var t := partition.Now();
      StepOrStay(g, s0, u, t, dir, j, valid, dataEnd, gapEnd, s, start);
      BlankedStays(d, DirSlots(g, u, dir), DirSlots(g, t, dir), e, j);
      dirEntryRemain := dirEntryRemain - 1;
      ghost var at: nat := if valid then j + 1 else j;
      WriteSlot(partition, gapEnd, Zeros(32), dir, at);
      AfterWrite(g, s0, t, partition.Now(), dir, at, gapEnd, s, start, j, dataEnd);
      BlankNext(d, DirSlots(g, t, dir), DirSlots(g, partition.Now(), dir), e, j, at);
      j := at;
    }
    BlankedAll(d, DirSlots(g, partition.Now(), dir), e, j, size, remain, s, valid);
  }

  lemma StepOrStay(g: Geometry, s0: Snap, u: Snap, t: Snap, dir: nat, j: nat, ok: bool, from: DirPos, pos: DirPos,
                   s: nat, start: DirPos)
    requires && DirKept(g, s0, u, dir)
             && DirOk(g, u, dir)
             && DirOk(g, t, dir)
             && SlotAt(g, u, dir, j, from)
             && SlotAt(g, u, dir, s, start)
    requires Incremented(g, u, t, dir, j, true, ok, pos) && (!ok ==> pos == from) && !Phantom(u.fs.links, u.fs.hint)
    ensures && DirKept(g, s0, t, dir)
            && SlotAt(g, t, dir, if ok then j + 1 else j, pos)
            && SlotAt(g, t, dir, j, from)
            && SlotAt(g, t, dir, s, start)
    ensures ok ==> !Phantom(t.fs.links, t.fs.hint) && j + 1 < |DirSlots(g, t, dir)|
    ensures !ok && dir in t.fs.chains ==> FreeSet(t.fs.links) == {}
    ensures !ok ==> |DirSlots(g, t, dir)| == j + 1
    ensures || DirSlots(g, t, dir) == DirSlots(g, u, dir)
            || exists n :: DirSlots(g, t, dir) == DirSlots(g, u, dir) + Blanks(n)
  {
    hide ByteOffset, Geometry.Valid, Chains.WellFormed, Raw, DirSlots, SnapOk, FreeSet, Phantom, SlotAt;
    DirKeptTrans(g, s0, u, t, dir);
    SlotStaysAhead(g, u, t, dir, j, from);
    SlotStaysAhead(g, u, t, dir, s, start);
    SlotInside(g, u, dir, j, from);
    if ok { SlotInside(g, t, dir, j + 1, pos); }
  }

  lemma AfterWrite(g: Geometry, s0: Snap, t: Snap, u: Snap, dir: nat, at: nat, pos: DirPos, s: nat, start: DirPos,
                   j: nat, from: DirPos)
    requires DirKept(g, s0, t, dir) && DirKept(g, t, u, dir) && u.fs == t.fs && DirOk(g, t, dir)
    requires SlotAt(g, t, dir, at, pos) && SlotAt(g, t, dir, s, start) && SlotAt(g, t, dir, j, from)
    ensures && DirKept(g, s0, u, dir)
            && DirOk(g, u, dir)
            && SlotAt(g, u, dir, at, pos)
            && SlotAt(g, u, dir, s, start)
            && SlotAt(g, u, dir, j, from)
  {
    hide ByteOffset, Geometry.Valid, Chains.WellFormed, Raw, SnapOk;
    DirKeptTrans(g, s0, t, u, dir);
    KeptOk(g, t, u, dir);
    SlotsStay(g, t, u, dir, at, pos);
    SlotsStay(g, t, u, dir, s, start);
    SlotsStay(g, t, u, dir, j, from);
  }

  /** _FAT_directory_findEntryGap: room for size slots, exactly if the directory has it; in either
      case nothing before the end of the directory changed, and it still ends. */
  method FindEntryGap(partition: Partition, dirCluster: nat, size: nat, ghost dir: nat)
    returns (ok: bool, dataStart: DirPos, dataEnd: DirPos, ghost s: nat)
    requires && partition.Valid()
             && DirOk(partition.g, partition.Now(), dir)
             && dirCluster == dir
             && partition.HintOk()
             && 0 < size
    modifies partition.Repr()
    ensures && partition.Valid()
            && DirKept(partition.g, old(partition.Now()), partition.Now(), dir)
            && DirOk(partition.g, partition.Now(), dir)
    ensures GapOutcome(DirSlots(partition.g, old(partition.Now()), dir),
                       DirSlots(partition.g, partition.Now(), dir), size,
                       DirCapacity(partition.g, old(partition.Now()), dir), ok, s)
    ensures ok ==> partition.HintOk()
                   && SlotAt(partition.g, partition.Now(), dir, s, dataStart)
                   && SlotAt(partition.g, partition.Now(), dir, s + size - 1, dataEnd)
  {
    hide ByteOffset, Geometry.Valid, Cache.Valid, Cache.Touched, FatEntries.Links, Chains.WellFormed, Raw, DirSlots,
         SlotAt, SnapOk, DirKept, KindOf, FreeSet, Phantom, MetEnd, EndsAt, Blanked, RoomAtEnd, MetGap, MetNone,
         SameUpTo, DirCapacity, GapOutcome;
    ghost var g, s0 := partition.g, partition.Now();
    ghost var d := DirSlots(g, s0, dir);
    var valid, atEnd, gapStart, gapEnd, remain;
    ghost var i;
    valid, atEnd, gapStart, gapEnd, remain, s, i := ScanForGap(partition, dirCluster, size, dir);
    dataStart, dataEnd := gapStart, gapEnd;
    ghost var s1, cap := partition.Now(), DirCapacity(g, s0, dir);
    CapacityKept(g, s0, s1, dir);
    CapacityBounds(g, s1, dir);
    if !valid {
      NoneIsFull(d, size, cap, s);
      return false, dataStart, dataEnd, s;
    }
    if atEnd {
      ok, dataEnd := MakeRoom(partition, gapEnd, remain, dir, d, i, size, s, gapStart);
      CapacityKept(g, s1, partition.Now(), dir);
      CapacityBounds(g, partition.Now(), dir);
      DirKeptTrans(g, s0, s1, partition.Now(), dir);
      EndOutcome(d, DirSlots(g, s1, dir), DirSlots(g, partition.Now(), dir), size, i, remain, s, cap, ok);
    } else {
      GapIsRoom(d, DirSlots(g, partition.Now(), dir), size, i, s, cap);
      ok := true;
    }
  }

  // ---- what the operations mean for the listing ----

  /** The enumerator, started at the first slot, shows exactly the listing. */
  lemma ShownIsListing(g: Geometry, s: Snap, dir: nat, items: seq<Item>, rest: seq<Slot>, buf: Text)
    requires Contains(g, s, dir, items, rest) && |buf| == MAX_LFN_LENGTH
    ensures Enumerated(DirSlots(g, s, dir), 0, buf) == Listing(items)
  {
    hide DirSlots, DirOk, Enumerated, Listing, Flat;
    FlatNone();
    assert [] + items == items;
    EnumeratesListing(DirSlots(g, s, dir), [], items, rest, buf);
  }

  /** Removing an entry found by the enumerator leaves all others, in order. */
  lemma RemovedListing(g: Geometry, s: Snap, t: Snap, dir: nat, a: seq<Item>, it: Item, b: seq<Item>, rest: seq<Slot>)
    returns (items: seq<Item>)
    requires Contains(g, s, dir, a + [it] + b, rest) && it.Group? && DirKept(g, s, t, dir)
    requires Marked(DirSlots(g, s, dir), DirSlots(g, t, dir), |Flat(a)|, |ItemSlots(it)|)
    ensures Contains(g, t, dir, items, rest)
    ensures && Listing(a + [it] + b) == Listing(a) + ShownItem(it) + Listing(b)
            && Listing(items) == Listing(a) + Listing(b)
  {
    hide DirSlots, DirOk, Listing, Flat, ItemSlots, ShownItem;
    var skips := RemoveGroup(DirSlots(g, s, dir), a, it, b, rest, DirSlots(g, t, dir));
    items := a + skips + b;
  }
}
