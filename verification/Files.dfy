/** Open files: source/fatfile.c over the table of Fat and the sector cache. */
module Files {
  import opened Bytes
  import opened Pages
  import opened Layout
  import opened Chains
  import opened SectorCache
  import opened Fat
  import opened FileBytes
  import opened FileSpec
  import opened Handles
  import opened Truncation
  import opened Calls

  /** The data area of neighbouring clusters, in sectors. */
  lemma RunFits(g: Geometry, chain: seq<nat>, k: nat, m: nat)
    requires && g.Valid()
             && (forall i :: 0 <= i < |chain| ==> g.IsValidCluster(chain[i]))
             && 0 < m
             && SideBySide(chain, k, m)
    ensures 0 <= m * g.sectorsPerCluster
    ensures g.rootDirStart <= g.ClusterToSector(chain[k])
    ensures g.ClusterToSector(chain[k]) + m * g.sectorsPerCluster <= g.endOfPartition
    ensures ByteOffset(m * g.sectorsPerCluster, g.bytesPerSector) == Start(g, m)
    ensures g.ClusterAddr(chain[k]) + Start(g, m) <= ByteOffset(g.endOfPartition, g.bytesPerSector)
  {
    hide ByteOffset, Geometry.Valid;
    var last := chain[k + m - 1];
    var spc := g.sectorsPerCluster;
    assert last == chain[k] + (m - 1);
    ClusterPlace(g, chain[k]);
    ClusterPlace(g, last);
    GeometryBounds(g);
    assert (chain[k] - 2) * spc + (m - 1) * spc == (last - 2) * spc;
    MulMono(m - 1, m, spc);
    OffsetMul(m, spc, g.bytesPerSector);
    OffsetIs(m, g.BytesPerCluster());
    ClusterRun(g, chain[k], m - 1);
    OffsetMono(m - 1, m, g.BytesPerCluster());
  }

  /** One step on from (cluster, sector) lies inside the same cluster. */
  lemma SectorsFit(g: Geometry, c: nat, sector: nat, n: nat)
    requires g.Valid() && g.IsValidCluster(c) && sector + n <= g.sectorsPerCluster
    ensures g.rootDirStart <= g.ClusterToSector(c) + sector
    ensures g.ClusterToSector(c) + sector + n <= g.endOfPartition
    ensures ByteOffset(g.ClusterToSector(c) + sector, g.bytesPerSector)
            == g.ClusterAddr(c) + ByteOffset(sector, g.bytesPerSector)
    ensures ByteOffset(sector, g.bytesPerSector) + ByteOffset(n, g.bytesPerSector)
            == ByteOffset(sector + n, g.bytesPerSector) <= g.BytesPerCluster()
  {
    hide ByteOffset, Geometry.Valid;
    ClusterPlace(g, c);
    GeometryBounds(g);
    OffsetAdd(g.ClusterToSector(c), sector, g.bytesPerSector);
    OffsetAdd(sector, n, g.bytesPerSector);
    OffsetMono(sector + n, g.sectorsPerCluster, g.bytesPerSector);
  }

  /** A store of n bytes at the cursor, inside its sector: where it goes, and where the cursor is afterwards. */
  lemma StoreInSector(g: Geometry, w: Request, t: Snap, rest: seq<byte>, pos: FilePosition, k: nat, n: nat)
    requires Underway(g, w, t, rest, pos, k) && !Due(g, pos) && pos.byte + n <= g.bytesPerSector
    ensures g.IsValidCluster(pos.cluster) && pos.sector < g.sectorsPerCluster
    ensures g.rootDirStart <= g.ClusterToSector(pos.cluster) + pos.sector < g.endOfPartition
    ensures ByteOffset(g.ClusterToSector(pos.cluster) + pos.sector, g.bytesPerSector)
            == g.ClusterAddr(pos.cluster) + ByteOffset(pos.sector, g.bytesPerSector)
    ensures && SideBySide(t.fs.chains[w.h], k, 1)
            && w.at + |w.data| - |rest| == Start(g, k) + ByteOffset(pos.sector, g.bytesPerSector) + pos.byte
    ensures ByteOffset(pos.sector, g.bytesPerSector) + g.bytesPerSector <= Start(g, 1)
    ensures g.ClusterAddr(pos.cluster) + Start(g, 1) <= |t.view|
    ensures var p := pos.(byte := pos.byte + n);
            var p' := if p.byte >= g.bytesPerSector then p.(byte := 0, sector := p.sector + 1) else p;
            StandsAt(g, t.fs.chains[w.h], k, p', w.at + |w.data| - |rest| + n)
  {
    hide ByteOffset, Geometry.Valid, Progress, WellFormed, Raw;
    var chain := t.fs.chains[w.h];
    ChainUsable(g, t, w.h);
    GeometryBounds(g);
    SectorsFit(g, pos.cluster, pos.sector, 1);
    OffsetMono(0, 1, g.bytesPerSector);
    OffsetMono(0, 1, g.BytesPerCluster());
    OffsetMono(0, 0, g.BytesPerCluster());
    OffsetMono(pos.sector, pos.sector + 1, g.bytesPerSector);
    assert SideBySide(chain, k, 1);
    RunFits(g, chain, k, 1);
  }

  /** The arithmetic of "sectors up to the end of the cluster". */
  lemma SectorsToEnd(bps: nat, spc: nat, sector: nat, remain: nat)
    requires bps > 0 && sector <= spc
    ensures 0 <= remain / bps && ByteOffset(remain / bps, bps) <= remain < ByteOffset(remain / bps, bps) + bps
    ensures ByteOffset(0, bps) == 0
    ensures remain <= ByteOffset(spc - sector, bps) ==> remain / bps <= spc - sector
    ensures remain <= ByteOffset(spc - sector, bps) && remain / bps == spc - sector ==>
              remain == ByteOffset(spc - sector, bps)
    ensures ByteOffset(spc - sector, bps) + ByteOffset(sector, bps) == ByteOffset(spc, bps)
  {
    hide ByteOffset;
    OffsetDiv(remain, bps);
    OffsetMono(0, 0, bps);
    OffsetMono(spc - sector, remain / bps, bps);
    OffsetMono(spc - sector + 1, remain / bps, bps);
    OffsetMono(spc - sector, 0, bps);
    OffsetAdd(spc - sector, sector, bps);
  }

  lemma StoreSectors(g: Geometry, w: Request, t: Snap, rest: seq<byte>, pos: FilePosition, k: nat, n: nat)
    requires Underway(g, w, t, rest, pos, k) && pos.byte == 0 && pos.sector + n <= g.sectorsPerCluster
    ensures g.IsValidCluster(pos.cluster)
    ensures g.rootDirStart <= g.ClusterToSector(pos.cluster) + pos.sector
    ensures g.ClusterToSector(pos.cluster) + pos.sector + n <= g.endOfPartition
    ensures ByteOffset(g.ClusterToSector(pos.cluster) + pos.sector, g.bytesPerSector)
            == g.ClusterAddr(pos.cluster) + ByteOffset(pos.sector, g.bytesPerSector)
    ensures && SideBySide(t.fs.chains[w.h], k, 1)
            && w.at + |w.data| - |rest| == Start(g, k) + ByteOffset(pos.sector, g.bytesPerSector)
    ensures ByteOffset(pos.sector, g.bytesPerSector) + ByteOffset(n, g.bytesPerSector) <= Start(g, 1)
    ensures g.ClusterAddr(pos.cluster) + Start(g, 1) <= |t.view|
    ensures StandsAt(g, t.fs.chains[w.h], k, pos.(sector := pos.sector + n),
                     w.at + |w.data| - |rest| + ByteOffset(n, g.bytesPerSector))
  {
    hide ByteOffset, Geometry.Valid, Progress, WellFormed, Raw;
    var chain := t.fs.chains[w.h];
    ChainUsable(g, t, w.h);
    GeometryBounds(g);
    SectorsFit(g, pos.cluster, pos.sector, n);
    OffsetMono(0, 1, g.BytesPerCluster());
    OffsetMono(0, 0, g.BytesPerCluster());
    assert SideBySide(chain, k, 1);
    RunFits(g, chain, k, 1);
  }

  /** Where a chunk of m clusters goes, in sectors and in bytes. */
  lemma ChunkPlace(g: Geometry, w: Request, t: Snap, data: seq<byte>, pos: FilePosition, k: nat, m: nat)
    requires Underway(g, w, t, data, pos, k) && pos.sector == 0 == pos.byte
    requires 0 < m && SideBySide(t.fs.chains[w.h], k, m) && Start(g, m) <= |data|
    ensures pos.cluster == t.fs.chains[w.h][k] && w.at + |w.data| - |data| == Start(g, k)
    ensures g.bytesPerSector > 0 && 0 <= Start(g, m) / g.bytesPerSector
    ensures ByteOffset(Start(g, m) / g.bytesPerSector, g.bytesPerSector) == Start(g, m)
    ensures g.rootDirStart <= g.ClusterToSector(pos.cluster)
    ensures g.ClusterToSector(pos.cluster) + Start(g, m) / g.bytesPerSector <= g.endOfPartition
    ensures g.ClusterAddr(pos.cluster) + Start(g, m) <= |t.view|
    ensures Start(g, m) > 0
  {
    hide ByteOffset, Geometry.Valid, Progress, WellFormed, Raw;
    ChainUsable(g, t, w.h);
    RunFits(g, t.fs.chains[w.h], k, m);
    GeometryBounds(g);
    OffsetMono(0, 0, g.bytesPerSector);
    OffsetIs(m * g.sectorsPerCluster, g.bytesPerSector);
    DivExact(m * g.sectorsPerCluster, g.bytesPerSector);
    OffsetMono(1, g.sectorsPerCluster, g.bytesPerSector);
    OffsetMono(1, m, g.BytesPerCluster());
    OffsetMono(0, 1, g.BytesPerCluster());
    OffsetMono(0, 0, g.BytesPerCluster());
  }

  /** The cursor behind a chunk: at the start of the next cluster, or due at the end of the last one. */
  lemma BehindChunk(g: Geometry, w: Request, t: Snap, data: seq<byte>, pos: FilePosition, k: nat, m: nat,
                    pos': FilePosition, k': nat)
    requires Underway(g, w, t, data, pos, k) && pos.sector == 0 == pos.byte
    requires 0 < m && SideBySide(t.fs.chains[w.h], k, m)
    requires || (k + m < |t.fs.chains[w.h]| && k' == k + m && pos' == FilePosition(t.fs.chains[w.h][k + m], 0, 0))
             || (k' == k + m - 1 && pos' == FilePosition(t.fs.chains[w.h][k + m - 1], g.sectorsPerCluster, 0))
    ensures StandsAt(g, t.fs.chains[w.h], k', pos', w.at + |w.data| - |data| + Start(g, m))
    ensures w.at + |w.data| - |data| + Start(g, m) == Start(g, k + m)
  {
    hide ByteOffset, Geometry.Valid, Progress, WellFormed, Raw;
    GeometryBounds(g);
    OffsetMono(0, 0, g.bytesPerSector);
    OffsetAdd(k, m, g.BytesPerCluster());
    OffsetMono(k + m - 1, k + m, g.BytesPerCluster());
  }

  /** The step of a due cursor onto the next cluster, or its failure on a full disc. */
  lemma DueStep(g: Geometry, w: Request, t: Snap, u: Snap, rest: seq<byte>, pos: FilePosition, k: nat, next: nat)
    requires Writing(g, w, t, rest, true, pos, k) && Due(g, pos) && rest != []
    requires SnapOk(g, u) && Grown(t.fs, u.fs, w.h) && SameData(g, t.view, u.view)
    requires g.IsValidCluster(next) ==>
               && !Phantom(u.fs.links, u.fs.hint) && k + 1 < |u.fs.chains[w.h]| && next == u.fs.chains[w.h][k + 1]
               && (|| |u.fs.chains[w.h]| == |t.fs.chains[w.h]|
                   || (|u.fs.chains[w.h]| == |t.fs.chains[w.h]| + 1 && k + 1 == |t.fs.chains[w.h]|))
    requires !g.IsValidCluster(next) ==>
               FreeSet(u.fs.links) == {} && u.fs.chains == t.fs.chains && k + 1 == |u.fs.chains[w.h]|
    ensures g.IsValidCluster(next) ==> Writing(g, w, u, rest, true, FilePosition(next, 0, 0), k + 1)
    ensures !g.IsValidCluster(next) ==> Writing(g, w, u, rest, false, pos, k)
  {
    hide ByteOffset, Geometry.Valid, Progress, WellFormed, Raw, FreeSet, SameData;
    var off := w.at + |w.data| - |rest|;
    GeometryBounds(g);
    DueIsNextStart(g, t.fs.chains[w.h], k, pos, off);
    OffsetMono(0, 0, g.bytesPerSector);
    if g.IsValidCluster(next) {
      WritingGrow(g, w, t, u, rest, pos, k, FilePosition(next, 0, 0), k + 1, 0);
    } else {
      WritingGrow(g, w, t, u, rest, pos, k, pos, k, 0);
    }
  }

  lemma SizeFits(g: Geometry, s: Snap, h: nat, size: nat)
    requires SnapOk(g, s) && h in s.fs.chains
    requires Exactly(g, |s.fs.chains[h]|, size) || (size == 0 && |s.fs.chains[h]| == 1)
    ensures size <= |FileRaw(g, s, h)|
  {
    ChainUsable(g, s, h);
  }

  lemma StepKeepsChain(g: Geometry, s: Snap, t: Snap, h: nat, size: nat, at: nat, d: seq<byte>)
    requires FileStep(g, s, t, h, size, at, d)
    ensures h in t.fs.chains && Exactly(g, |t.fs.chains[h]|, Max(size, at + |d|))
    ensures SnapOk(g, t) && Max(size, at + |d|) <= |FileRaw(g, t, h)|
    ensures h in s.fs.chains && Room(g, t.fs.links, |t.fs.chains[h]|) == Room(g, s.fs.links, |s.fs.chains[h]|)
  {
    hide ByteOffset, WellFormed, Raw, Overlay;
  }

  lemma CursorOf(g: Geometry, w: Request, t: Snap, rest: seq<byte>, flag: bool, pos: FilePosition, k: nat)
    requires Writing(g, w, t, rest, flag, pos, k)
    ensures w.h in t.fs.chains && |rest| <= |w.data| && Denotes(g, t.fs.chains[w.h], pos, w.at + |w.data| - |rest|)
  {
    hide ByteOffset, WellFormed, Progress, StandsAt;
    assert StandsAt(g, t.fs.chains[w.h], k, pos, w.at + |w.data| - |rest|);
  }

  /** Once the first cluster is there, a valid file is ready for the transfer. */
  lemma ReadyToWrite(g: Geometry, s: Snap, f: Handle, s1: Snap, f1: Handle)
    requires ValidAt(g, s, f) && CursorAt(g, s, f) && f1.startCluster in s1.fs.chains
    requires f.startCluster != CLUSTER_FREE ==> s1 == s && f1 == f
    requires f.startCluster == CLUSTER_FREE ==>
               && FirstTaken(g, s, s1, f1.startCluster)
               && f1
                  == f.(startCluster := f1.startCluster, rwPosition := FilePosition(f1.startCluster, 0, 0),
                        appendPosition := FilePosition(f1.startCluster, 0, 0))
               && StandsAt(g, s1.fs.chains[f1.startCluster], 0, f1.rwPosition, 0)
    ensures f.startCluster == CLUSTER_FREE ==> f.filesize == 0
    ensures || Exactly(g, |s1.fs.chains[f1.startCluster]|, f1.filesize)
            || (f1.filesize == 0 && |s1.fs.chains[f1.startCluster]| == 1)
    ensures f1.append ==> Denotes(g, s1.fs.chains[f1.startCluster], f1.appendPosition, f1.filesize)
    ensures f1.currentPosition <= f1.filesize ==>
              Denotes(g, s1.fs.chains[f1.startCluster], f1.rwPosition, f1.currentPosition)
  {
    hide ByteOffset, WellFormed, StandsAt;
    if f.startCluster == CLUSTER_FREE {
      NoChainAtFree(g, s);
      EmptyStart(g);
    }
  }

  /** A request cut to fit keeps the size within bounds. */
  lemma SizeStays(g: Geometry, s: Snap, f: Handle, t: Snap, f': Handle, d: seq<byte>, n: int)
    requires Transferred(g, s, f, t, f', d, n)
    requires f.filesize + |d| <= FILE_MAX_SIZE && (f.append || f.currentPosition + |d| <= FILE_MAX_SIZE)
    ensures f'.filesize <= FILE_MAX_SIZE
  {
    hide FileStep, Room;
  }

  lemma GapFields(g: Geometry, s: Snap, f: Handle, t: Snap, f': Handle, ok: bool)
    requires GapFilled(g, s, f, t, f', ok)
    ensures f' == f.(filesize := f'.filesize, rwPosition := f'.rwPosition)
    ensures f.startCluster in s.fs.chains && f.startCluster in t.fs.chains
    ensures Room(g, t.fs.links, |t.fs.chains[f.startCluster]|) == Room(g, s.fs.links, |s.fs.chains[f.startCluster]|)
    ensures ok ==>
              && FileStep(g, s, t, f.startCluster, f.filesize, f.filesize, Zeros(f.currentPosition - f.filesize))
              && f'.filesize == f.currentPosition <= Room(g, s.fs.links, |s.fs.chains[f.startCluster]|)
              && Exactly(g, |t.fs.chains[f.startCluster]|, f'.filesize)
              && Denotes(g, t.fs.chains[f.startCluster], f'.rwPosition, f.currentPosition)
              && !Phantom(t.fs.links, t.fs.hint)
    ensures !ok ==>
              && f' == f
              && FreeSet(t.fs.links) == {}
              && f.currentPosition > Room(g, s.fs.links, |s.fs.chains[f.startCluster]|)
              && exists z :: FileStep(g, s, t, f.startCluster, f.filesize, f.filesize, z)
  {
    hide FileStep, Room, Denotes, FreeSet, Exactly, Phantom;
  }

  lemma BrokenOff(g: Geometry, w: Request, t: Snap, rest: seq<byte>, flag: bool, pos: FilePosition, k: nat)
    requires Writing(g, w, t, rest, flag, pos, k)
    ensures !flag ==> rest != []
  {
  }

  lemma BeginRequest(g: Geometry, w: Request, pos: FilePosition, k: nat)
    requires SnapOk(g, w.from) && w.h in w.from.fs.chains && !Phantom(w.from.fs.links, w.from.fs.hint)
    requires StandsAt(g, w.from.fs.chains[w.h], k, pos, w.at)
    ensures Writing(g, w, w.from, w.data, true, pos, k)
  {
    hide ByteOffset, WellFormed, StandsAt, Progress, SnapOk, Phantom, FreeSet;
    assert g.Valid() by { SnapIs(g, w.from); }
    CursorInChain(g, w.from.fs.chains[w.h], k, pos, w.at);
    ProgressStart(g, w.from, w.h, w.at, w.size);
    assert w.data[..0] == [] && w.data[0..] == w.data;
  }

  lemma SnapIs(g: Geometry, s: Snap)
    requires SnapOk(g, s)
    ensures g.Valid()
  {
  }

  /** The first allocation for a file either fails on a full disc or gives a chain of one cluster. */
  lemma NoHintNoPhantom(g: Geometry, s: Snap, t: Snap, c: nat)
    requires SnapOk(g, s) && !Phantom(s.fs.links, s.fs.hint) && SameData(g, s.view, t.view)
    requires Allocated(g, s.fs, t.fs, CLUSTER_FREE, 0, c) && |t.fs.links| == g.lastCluster + 2
    ensures SnapOk(g, t)
    ensures g.IsValidCluster(c) <==> c != CLUSTER_ERROR
    ensures g.IsValidCluster(c) ==> FirstTaken(g, s, t, c) && !Phantom(t.fs.links, t.fs.hint)
    ensures !g.IsValidCluster(c) ==>
              && FreeSet(s.fs.links) == {}
              && t.fs.chains == s.fs.chains
              && t.fs.links == s.fs.links
              && t.fs.count == s.fs.count
  {
    hide ByteOffset, WellFormed, FreeSet;
    FirstTakenByAlloc(g, s, t, c);
    GeometryBounds(g);
  }

  lemma FirstStands(g: Geometry, s: Snap, t: Snap, c: nat)
    requires FirstTaken(g, s, t, c)
    ensures c in t.fs.chains && t.fs.chains[c] == [c] && StandsAt(g, t.fs.chains[c], 0, FilePosition(c, 0, 0), 0)
  {
    hide ByteOffset;
    GeometryBounds(g);
    OffsetMono(0, 0, g.BytesPerCluster());
    OffsetMono(0, 0, g.bytesPerSector);
  }

  /** A reader in a file: cursor and what is still wanted, all of it inside the chain. */
  ghost predicate Reading(g: Geometry, t: Snap, h: nat, k: nat, pos: FilePosition, off: nat, remain: nat) {
    && SnapOk(g, t) && h in t.fs.chains && StandsAt(g, t.fs.chains[h], k, pos, off)
    && off + remain <= |FileRaw(g, t, h)|
  }

  /** n bytes of the cluster the cursor is in, from sector and byte on. */
  lemma ReadHere(g: Geometry, t: Snap, h: nat, k: nat, pos: FilePosition, off: nat, n: nat)
    requires SnapOk(g, t) && h in t.fs.chains && StandsAt(g, t.fs.chains[h], k, pos, off)
    requires ByteOffset(pos.sector, g.bytesPerSector) + pos.byte + n <= g.BytesPerCluster()
    ensures g.IsValidCluster(pos.cluster)
    ensures var a := g.ClusterAddr(pos.cluster) + ByteOffset(pos.sector, g.bytesPerSector) + pos.byte;
            a + n <= |t.view| && off + n <= |FileRaw(g, t, h)| && t.view[a..a + n] == FileRaw(g, t, h)[off..off + n]
  {
    hide ByteOffset, Geometry.Valid, WellFormed, Raw;
    ChainUsable(g, t, h);
    RawInCluster(g, t.view, t.fs.chains[h], k, ByteOffset(pos.sector, g.bytesPerSector) + pos.byte, n);
  }

  /** When something is still wanted behind a full cluster, there is a next cluster. */
  lemma NextExists(g: Geometry, t: Snap, h: nat, k: nat, pos: FilePosition, off: nat, remain: nat)
    requires Reading(g, t, h, k, pos, off, remain)
    ensures Due(g, pos) ==> off == Start(g, k + 1)
    ensures Due(g, pos) && remain > 0 ==> k + 1 < |t.fs.chains[h]|
  {
    hide ByteOffset, Geometry.Valid, WellFormed, Raw;
    if Due(g, pos) {
      ChainUsable(g, t, h);
      DueIsNextStart(g, t.fs.chains[h], k, pos, off);
      OffsetMono(|t.fs.chains[h]|, k + 1, g.BytesPerCluster());
    }
  }

  lemma ReadingIs(g: Geometry, t: Snap, h: nat, k: nat, pos: FilePosition, off: nat, remain: nat)
    requires Reading(g, t, h, k, pos, off, remain)
    ensures SnapOk(g, t) && h in t.fs.chains && k < |t.fs.chains[h]| && pos.cluster == t.fs.chains[h][k]
    ensures pos.sector <= g.sectorsPerCluster && (Due(g, pos) ==> pos.byte == 0)
    ensures StandsAt(g, t.fs.chains[h], k, pos, off)
  {
  }

  lemma NothingRead(g: Geometry, t: Snap, h: nat, k: nat, pos: FilePosition, off: nat, remain: nat)
    requires Reading(g, t, h, k, pos, off, remain)
    ensures SnapOk(g, t) && h in t.fs.chains && off <= |FileRaw(g, t, h)| && FileRaw(g, t, h)[off..off] == []
    ensures pos.byte < g.bytesPerSector && (Due(g, pos) ==> pos.byte == 0)
  {
  }

  /** n bytes of the sector the cursor stands in: where they are, what they are, and the cursor behind them. */
  lemma PartOfSector(g: Geometry, t: Snap, h: nat, k: nat, pos: FilePosition, off: nat, remain: nat, n: nat)
    requires Reading(g, t, h, k, pos, off, remain) && !Due(g, pos) && n <= remain && pos.byte + n <= g.bytesPerSector
    ensures SnapOk(g, t) && h in t.fs.chains && off + n <= |FileRaw(g, t, h)|
    ensures g.ClusterToSector(pos.cluster) + pos.sector < g.endOfPartition
    ensures var a := ByteOffset(g.ClusterToSector(pos.cluster) + pos.sector, g.bytesPerSector) + pos.byte;
            a + n <= |t.view| && t.view[a..a + n] == FileRaw(g, t, h)[off..off + n]
    ensures var p := pos.(byte := pos.byte + n);
            var p' := if p.byte >= g.bytesPerSector then p.(byte := 0, sector := p.sector + 1) else p;
            Reading(g, t, h, k, p', off + n, remain - n)
  {
    hide ByteOffset, Geometry.Valid, WellFormed, Raw, FileRaw;
    ChainUsable(g, t, h);
    GeometryBounds(g);
    SectorsFit(g, pos.cluster, pos.sector, 1);
    OffsetMono(0, 1, g.bytesPerSector);
    OffsetMono(0, 0, g.bytesPerSector);
    OffsetMono(pos.sector, pos.sector + 1, g.bytesPerSector);
    ReadHere(g, t, h, k, pos, off, n);
  }

  /** Two stretches read one after the other are one stretch of the file. */
  lemma JoinRead(g: Geometry, t: Snap, h: nat, off: nat, a: seq<byte>, b: seq<byte>, k: nat, pos: FilePosition,
                 remain: nat)
    requires Reading(g, t, h, k, pos, off + |a| + |b|, remain)
    requires a == FileRaw(g, t, h)[off..off + |a|]
    requires b == [] || b == FileRaw(g, t, h)[off + |a|..off + |a| + |b|]
    ensures a + b == FileRaw(g, t, h)[off..off + |a + b|]
    ensures SnapOk(g, t) && h in t.fs.chains && k < |t.fs.chains[h]| && pos.cluster == t.fs.chains[h][k]
    ensures pos.sector <= g.sectorsPerCluster
  {
    hide ByteOffset, WellFormed, Raw, FileRaw;
    Joined(FileRaw(g, t, h), off, off + |a|, off + |a| + |b|);
  }

  /** A run of m clusters from the cursor on: where it lies, what it holds and where the cursor is behind it. */
  lemma ReadRun(g: Geometry, t: Snap, h: nat, k: nat, pos: FilePosition, off: nat, m: nat, remain: nat)
    requires Reading(g, t, h, k, pos, off, remain) && pos.sector == 0 == pos.byte
    requires 0 < m && SideBySide(t.fs.chains[h], k, m) && Start(g, m) <= remain
    ensures pos.cluster == t.fs.chains[h][k] && off == Start(g, k) && 0 < Start(g, m)
    ensures g.bytesPerSector > 0 && 0 <= Start(g, m) / g.bytesPerSector
    ensures ByteOffset(Start(g, m) / g.bytesPerSector, g.bytesPerSector) == Start(g, m)
    ensures g.ClusterToSector(pos.cluster) + Start(g, m) / g.bytesPerSector <= g.endOfPartition
    ensures g.ClusterAddr(pos.cluster) + Start(g, m) <= |t.view|
    ensures FileRaw(g, t, h)[off..off + Start(g, m)]
            == t.view[g.ClusterAddr(pos.cluster)..g.ClusterAddr(pos.cluster) + Start(g, m)]
    ensures k + m <= |t.fs.chains[h]| && off + Start(g, m) == Start(g, k + m)
    ensures k + m == |t.fs.chains[h]| ==> remain == Start(g, m)
    ensures k + m == |t.fs.chains[h]| ==>
              StandsAt(g, t.fs.chains[h], k + m - 1, FilePosition(t.fs.chains[h][k + m - 1], g.sectorsPerCluster, 0),
                       off + Start(g, m))
    ensures k + m < |t.fs.chains[h]| ==> g.IsValidCluster(t.fs.chains[h][k + m])
    ensures k + m < |t.fs.chains[h]| ==>
              StandsAt(g, t.fs.chains[h], k + m, FilePosition(t.fs.chains[h][k + m], 0, 0), off + Start(g, m))
    ensures g.sectorsPerCluster > 0
    ensures forall i :: 0 <= i < |t.fs.chains[h]| ==> g.IsValidCluster(t.fs.chains[h][i])
  {
    hide ByteOffset, Geometry.Valid, WellFormed, Raw;
    var chain := t.fs.chains[h];
    ChainUsable(g, t, h);
    GeometryBounds(g);
    OffsetMono(0, 0, g.bytesPerSector);
    OffsetMono(0, 0, g.BytesPerCluster());
    RawInRun(g, t.view, chain, k, m);
    RunFits(g, chain, k, m);
    DivExact(m * g.sectorsPerCluster, g.bytesPerSector);
    OffsetIs(m * g.sectorsPerCluster, g.bytesPerSector);
    BpcPositive(g);
    OffsetMono(1, m, g.BytesPerCluster());
    OffsetMono(0, 1, g.BytesPerCluster());
    OffsetMono(k + m - 1, k + m, g.BytesPerCluster());
  }

  /** Across the end of a cluster the offset stays; after a misread the cursor is right again. */
  lemma AcrossCluster(g: Geometry, t: Snap, h: nat, k: nat, pos: FilePosition, off: nat, remain: nat, misread: bool,
                      pos': FilePosition, k': nat)
    requires && SnapOk(g, t)
             && h in t.fs.chains
             && k < |t.fs.chains[h]|
             && pos.cluster == t.fs.chains[h][k]
             && pos.sector <= g.sectorsPerCluster
    requires !misread ==> Reading(g, t, h, k, pos, off, remain)
    requires misread ==>
               && remain == 0
               && Due(g, pos)
               && pos.byte < g.bytesPerSector
               && k + 1 < |t.fs.chains[h]|
               && off == Start(g, k + 1) + pos.byte
    requires Due(g, pos) && k + 1 < |t.fs.chains[h]| ==>
               pos' == FilePosition(t.fs.chains[h][k + 1], 0, pos.byte) && k' == k + 1
    requires !(Due(g, pos) && k + 1 < |t.fs.chains[h]|) ==> pos' == pos && k' == k
    ensures StandsAt(g, t.fs.chains[h], k', pos', off)
    ensures !misread ==> Reading(g, t, h, k', pos', off, remain)
  {
    hide ByteOffset, Geometry.Valid, WellFormed, Raw, FileRaw;
    GeometryBounds(g);
    OffsetMono(0, 0, g.bytesPerSector);
    if !misread && Due(g, pos) { DueIsNextStart(g, t.fs.chains[h], k, pos, off); }
  }

  lemma BeginRead(g: Geometry, t: Snap, f: Handle, k: nat, wanted: nat)
    requires && SoundAt(g, t, f)
             && f.startCluster in t.fs.chains
             && StandsAt(g, t.fs.chains[f.startCluster], k, f.rwPosition, f.currentPosition)
    requires f.currentPosition + wanted <= f.filesize
    ensures Reading(g, t, f.startCluster, k, f.rwPosition, f.currentPosition, wanted)
    ensures f.filesize <= |FileRaw(g, t, f.startCluster)|
    ensures FileRaw(g, t, f.startCluster)[f.currentPosition..f.currentPosition + wanted]
            == ContentAt(g, t, f)[f.currentPosition..f.currentPosition + wanted]
  {
    hide ByteOffset, WellFormed, Raw, StandsAt, FileRaw;
    ChainUsable(g, t, f.startCluster);
    FileIs(g, t, f.startCluster);
    var at := f.currentPosition;
    SliceOfPrefix(FileRaw(g, t, f.startCluster), f.filesize, at, at + wanted);
    assert ContentAt(g, t, f) == FileRaw(g, t, f.startCluster)[..f.filesize];
  }

  lemma EndRead(g: Geometry, t: Snap, f: Handle, wanted: nat, pos: FilePosition, k: nat)
    requires && ValidAt(g, t, f)
             && f.startCluster in t.fs.chains
             && StandsAt(g, t.fs.chains[f.startCluster], k, pos, f.currentPosition + wanted)
    ensures var f' := f.(rwPosition := pos, currentPosition := f.currentPosition + wanted);
            ValidAt(g, t, f') && CursorAt(g, t, f') && ContentAt(g, t, f') == ContentAt(g, t, f)
  {
    hide ByteOffset, WellFormed, Raw, StandsAt;
    assert Denotes(g, t.fs.chains[f.startCluster], pos, f.currentPosition + wanted);
  }

  lemma NothingLeft(g: Geometry, t: Snap, f: Handle)
    requires ValidAt(g, t, f) && f.filesize == 0
    ensures ContentAt(g, t, f) == []
  {
  }

  /** Whether a handle is valid depends on position and cursors only when it appends. */
  lemma SameFile(g: Geometry, t: Snap, f: Handle, f': Handle)
    requires ValidAt(g, t, f) && f'.filesize == f.filesize && f'.startCluster == f.startCluster && !f'.append
    ensures ValidAt(g, t, f')
  {
  }

  /** The whole sectors in less than a cluster. */
  lemma PartOfCluster(g: Geometry, remain: nat, n: nat)
    requires g.Valid() && remain < g.BytesPerCluster()
    requires ByteOffset(n, g.bytesPerSector) <= remain < ByteOffset(n, g.bytesPerSector) + g.bytesPerSector
    ensures n < g.sectorsPerCluster && (n == 0 <==> remain < g.bytesPerSector)
  {
    hide ByteOffset, Geometry.Valid;
    OffsetMono(g.sectorsPerCluster, n, g.bytesPerSector);
    OffsetMono(1, n, g.bytesPerSector);
    OffsetMono(0, 0, g.bytesPerSector);
  }

  class File {
    const partition: Partition
    var filesize: nat
    var startCluster: nat
    var currentPosition: nat
    var rwPosition: FilePosition
    var appendPosition: FilePosition
    var read: bool
    var write: bool
    var append: bool
    var inUse: bool
    var modified: bool

    constructor (partition: Partition)
      ensures this.partition == partition && !inUse
    {
      this.partition := partition;
      filesize, startCluster, currentPosition := 0, CLUSTER_FREE, 0;
      rwPosition := FilePosition(CLUSTER_FREE, 0, 0);
      appendPosition := FilePosition(CLUSTER_FREE, 0, 0);
      read, write, append, inUse, modified := false, false, false, false, false;
    }

    /** Moves a due cursor onto the next cluster, taking a new one when the chain ends here.
        Does nothing when no byte remains to be written. */
    method CheckPositionForNextCluster(position: FilePosition, remain: nat, flagNoError: bool, ghost h: nat,
                                       ghost k: nat, ghost off: nat)
      returns (ok: bool, position': FilePosition, flag: bool, ghost k': nat)
      requires && partition.Valid()
               && h in partition.chains
               && StandsAt(partition.g, partition.chains[h], k, position, off)
      requires flagNoError && remain > 0 ==> partition.HintOk()
      modifies partition.Repr()
      ensures partition.Valid() && SnapOk(partition.g, old(partition.Now())) && SnapOk(partition.g, partition.Now())
      ensures && Grown(old(partition.Fs()), partition.Fs(), h)
              && SameData(partition.g, old(partition.cache.view), partition.cache.view)
      ensures StandsAt(partition.g, partition.chains[h], k', position', off)
      ensures ok <==> remain == 0 || flag
      ensures remain == 0 || !flagNoError ==> flag == flagNoError
      ensures remain == 0 || !flagNoError || !Due(partition.g, position) ==>
                position' == position && partition.Now() == old(partition.Now())
      ensures remain > 0 && flagNoError && flag ==>
                && partition.HintOk() && !Due(partition.g, position')
                && k' == (if Due(partition.g, position) then k + 1 else k)
                && (Due(partition.g, position) ==> position'.sector == 0 && position'.byte == 0)
      ensures remain > 0 && flagNoError && !flag ==>
                && position' == position && partition.chains == old(partition.chains)
                && FreeSet(partition.Links()) == {} && off == Start(partition.g, |partition.chains[h]|)
      ensures || |partition.chains[h]| == |old(partition.chains)[h]|
              || (&& |partition.chains[h]| == |old(partition.chains)[h]| + 1
                  && remain > 0
                  && off == Start(partition.g, |old(partition.chains)[h]|))
    {
      hide ByteOffset, Geometry.Valid, Cache.Valid, Cache.Touched, FatEntries.Links, WellFormed, FreeSet, IsChain;
      ghost var s, chain := partition.Now(), partition.chains[h];
      k', position' := k, position;
      flag := flagNoError;
      SnapIsOk();
      GrownRefl(s.fs, h);
      if remain == 0 { return true, position, flag, k; }
      if !flagNoError { return false, position, flag, k; }
      if position.sector == partition.g.sectorsPerCluster {
        GeometryBounds(partition.g);
        ChainUsable(partition.g, s, h);
        InsideCluster(partition.g, chain, k, position, off);
        OffsetMono(0, 0, partition.g.bytesPerSector);
        ChainInRange(s.fs.links, s.fs.chains, h);
        LinkInChain(s.fs.links, chain, k);
        var tempNextCluster := partition.NextCluster(position.cluster);
        if tempNextCluster == CLUSTER_EOF || tempNextCluster == CLUSTER_FREE {
          tempNextCluster := partition.LinkFreeCluster(position.cluster, h);
          SnapIsOk();
        }
        ok := partition.g.IsValidCluster(tempNextCluster);
        if !ok {
          return false, position, false, k;
        }
        position' := FilePosition(tempNextCluster, 0, position.byte);
        k' := k + 1;
      }
      ok := true;
    }

    lemma SnapIsOk()
      requires partition.Valid()
      ensures SnapOk(partition.g, partition.Now())
    {
    }

    // ---- the stages of a write ----

    /** The due cursor moves onto its cluster; what follows may count on it. */
    method NextClusterIfDue(position: FilePosition, rest: seq<byte>, flagNoError: bool, ghost w: Request, ghost k: nat)
      returns (position': FilePosition, flag: bool, ghost k': nat)
      requires partition.Valid() && Writing(partition.g, w, partition.Now(), rest, flagNoError, position, k)
      modifies partition.Repr()
      ensures partition.Valid() && Writing(partition.g, w, partition.Now(), rest, flag, position', k')
      ensures flag ==> flagNoError
      ensures rest == [] ==> flag == flagNoError && position' == position
      ensures flag && rest != [] ==> !Due(partition.g, position')
      ensures flag && (rest == [] || !Due(partition.g, position)) ==>
                position' == position && partition.Now() == old(partition.Now())
      ensures flag && rest != [] && Due(partition.g, position) ==> position'.sector == 0 && position'.byte == 0
    {
      hide ByteOffset, Geometry.Valid, Cache.Valid, Cache.Touched, FatEntries.Links, WellFormed, FreeSet, Progress,
           Raw, SnapOk, Grown, SameData;
      ghost var t := partition.Now();
      var ok;
      ok, position', flag, k' := CheckPositionForNextCluster(position, |rest|, flagNoError, w.h, k,
                                                             w.at + |w.data| - |rest|);
      if flagNoError && rest != [] {
        WritingGrow(partition.g, w, t, partition.Now(), rest, position, k, position', k', 0);
      }
    }

    /** The rest of the sector the cursor stands in. */
    method WriteAlignSector(position: FilePosition, data: seq<byte>, flagNoError: bool, ghost w: Request, ghost k: nat)
      returns (position': FilePosition, rest: seq<byte>)
      requires partition.Valid() && Writing(partition.g, w, partition.Now(), data, flagNoError, position, k)
      requires data != [] && (flagNoError ==> !Due(partition.g, position))
      modifies partition.cache.Repr()
      ensures partition.Valid() && Writing(partition.g, w, partition.Now(), rest, flagNoError, position', k)
      ensures flagNoError && rest != [] ==> position'.byte == 0
    {
      hide ByteOffset, Geometry.Valid, Cache.Valid, Cache.Touched, FatEntries.Links, WellFormed, FreeSet, Progress,
           Raw, SnapOk, Grown, SameData, Splice;
      GeometryBounds(partition.g);
      var bps := partition.g.bytesPerSector;
      position', rest := position, data;
      var tempVar := bps - position.byte;
      if tempVar > |data| { tempVar := |data|; }
      if tempVar < bps && flagNoError {
        ghost var t := partition.Now();
        StoreInSector(partition.g, w, t, data, position, k, tempVar);
        partition.WritePartialSector(data[..tempVar], partition.g.ClusterToSector(position.cluster) + position.sector,
                                     position.byte);
        rest := data[tempVar..];
        position' := position.(byte := position.byte + tempVar);
        if position'.byte >= bps {
          position' := position'.(byte := 0, sector := position'.sector + 1);
        }
        assert data[..tempVar] + [] == data[..tempVar];
        WritingStore(partition.g, w, t, partition.Now(), data, position, k, k, 1,
                     ByteOffset(position.sector, bps) + position.byte, tempVar, [], position', k);
      }
    }

    /** Whole sectors up to the end of the cluster; a cluster to be filled from its start is left
        to the next stage. */
    method WriteAlignCluster(position: FilePosition, data: seq<byte>, flagNoError: bool, ghost w: Request, ghost k: nat)
      returns (position': FilePosition, rest: seq<byte>)
      requires partition.Valid() && Writing(partition.g, w, partition.Now(), data, flagNoError, position, k)
      requires flagNoError && data != [] ==> position.byte == 0
      modifies partition.cache.Repr()
      ensures partition.Valid() && Writing(partition.g, w, partition.Now(), rest, flagNoError, position', k)
      ensures flagNoError && rest != [] ==> position'.byte == 0
      ensures flagNoError && rest != [] ==> Aligned(position', rest)
    {
      hide ByteOffset, Geometry.Valid, Cache.Valid, Cache.Touched, FatEntries.Links, WellFormed, FreeSet, Progress,
           Raw, SnapOk, Grown, SameData, Splice;
      GeometryBounds(partition.g);
      var bps, spc := partition.g.bytesPerSector, partition.g.sectorsPerCluster;
      position', rest := position, data;
      OffsetDiv(|data|, bps);
      var tempVar := |data| / bps;
      if |data| > ByteOffset(spc - position.sector, bps) {
        tempVar := spc - position.sector;
      }
      SectorsToEnd(bps, spc, position.sector, |data|);
      if tempVar > 0 && tempVar < spc && flagNoError {
        position', rest := WriteSectorsHere(position, data, tempVar, w, k);
      }
    }

    /** n whole sectors at the cursor, all in its cluster. */
    method WriteSectorsHere(position: FilePosition, data: seq<byte>, n: nat, ghost w: Request, ghost k: nat)
      returns (position': FilePosition, rest: seq<byte>)
      requires partition.Valid() && Writing(partition.g, w, partition.Now(), data, true, position, k)
      requires && position.byte == 0
               && position.sector + n <= partition.g.sectorsPerCluster
               && ByteOffset(n, partition.g.bytesPerSector) <= |data|
      modifies partition.cache.Repr()
      ensures partition.Valid() && Writing(partition.g, w, partition.Now(), rest, true, position', k)
      ensures position' == position.(sector := position.sector + n)
      ensures rest == data[ByteOffset(n, partition.g.bytesPerSector)..]
    {
      hide ByteOffset, Geometry.Valid, Cache.Valid, Cache.Touched, FatEntries.Links, WellFormed, FreeSet, Progress,
           Raw, SnapOk, Grown, SameData, Splice;
      ghost var t := partition.Now();
      var bytes := ByteOffset(n, partition.g.bytesPerSector);
      StoreSectors(partition.g, w, t, data, position, k, n);
      partition.WriteSectors(partition.g.ClusterToSector(position.cluster) + position.sector, n, data[..bytes]);
      position', rest := position.(sector := position.sector + n), data[bytes..];
      assert data[..bytes] + [] == data[..bytes];
      WritingStore(partition.g, w, t, partition.Now(), data, position, k, k, 1,
                   ByteOffset(position.sector, partition.g.bytesPerSector), bytes, [], position', k);
    }

    /** Where whole clusters may be written from: a cluster's start or a due cluster. */
    ghost predicate Aligned(position: FilePosition, rest: seq<byte>) {
      Due(partition.g, position) || |rest| < partition.g.bytesPerSector
      || (position.sector == 0 && |rest| >= partition.g.BytesPerCluster())
    }

    /** Whole clusters, neighbouring ones in one go. */
    method WriteWholeClusters(position: FilePosition, data: seq<byte>, flagNoError: bool, ghost w: Request,
                              ghost k: nat)
      returns (position': FilePosition, rest: seq<byte>, flag: bool, ghost k': nat)
      requires partition.Valid() && Writing(partition.g, w, partition.Now(), data, flagNoError, position, k)
      requires flagNoError && data != [] ==> position.byte == 0 && Aligned(position, data)
      modifies partition.Repr()
      ensures partition.Valid() && Writing(partition.g, w, partition.Now(), rest, flag, position', k')
      ensures flag && rest != [] ==> position'.byte == 0 && |rest| < partition.g.BytesPerCluster()
      ensures flag && rest != [] ==>
                Due(partition.g, position') || |rest| < partition.g.bytesPerSector || position'.sector == 0
    {
      hide ByteOffset, Geometry.Valid, Cache.Valid, Cache.Touched, FatEntries.Links, WellFormed, FreeSet, Progress,
           Raw, SnapOk, Grown, SameData, Splice;
      GeometryBounds(partition.g);
      OffsetMono(1, partition.g.sectorsPerCluster, partition.g.bytesPerSector);
      OffsetMono(0, 0, partition.g.bytesPerSector);
      position', rest, flag, k' := position, data, flagNoError, k;
      while |rest| >= partition.g.BytesPerCluster() && flag
        invariant partition.Valid() && Writing(partition.g, w, partition.Now(), rest, flag, position', k')
        invariant flag && rest != [] ==>
                    && position'.byte == 0
                    && (Due(partition.g, position') || |rest| < partition.g.bytesPerSector || position'.sector == 0)
        decreases |rest|
      {
        position', flag, k' := NextClusterIfDue(position', rest, flag, w, k');
        if !flag { break; }
        position', rest, flag, k' := WriteChunk(position', rest, w, k');
      }
    }

    /** One round: a chunk of neighbouring clusters, as many as there are data and clusters for. */
    method WriteChunk(position: FilePosition, data: seq<byte>, ghost w: Request, ghost k: nat)
      returns (position': FilePosition, rest: seq<byte>, flag: bool, ghost k': nat)
      requires partition.Valid() && Writing(partition.g, w, partition.Now(), data, true, position, k)
      requires position.sector == 0 == position.byte && |data| >= partition.g.BytesPerCluster()
      modifies partition.Repr()
      ensures partition.Valid() && Writing(partition.g, w, partition.Now(), rest, flag, position', k')
      ensures |rest| < |data|
      ensures position'.byte == 0 && (Due(partition.g, position') || position'.sector == 0)
    {
      hide ByteOffset, Geometry.Valid, Cache.Valid, Cache.Touched, FatEntries.Links, WellFormed, FreeSet, Progress,
           Raw, SnapOk, Grown, SameData, Splice, StandsAt;
      var chunkEnd, nextChunkStart;
      var m: nat;
      chunkEnd, nextChunkStart, m, flag := GroupClusters(position, data, w, k);
      var g := partition.g;
      ghost var t := partition.Now();
      var chunkSize := Start(g, m);
      ChunkPlace(g, w, t, data, position, k, m);
      partition.WriteSectors(g.ClusterToSector(position.cluster), chunkSize / g.bytesPerSector, data[..chunkSize]);
      rest := data[chunkSize..];
      if chunkEnd != nextChunkStart && g.IsValidCluster(nextChunkStart) {
        position', k' := FilePosition(nextChunkStart, 0, position.byte), k + m;
      } else {
        position', k' := FilePosition(chunkEnd, g.sectorsPerCluster, position.byte), k + m - 1;
      }
      BehindChunk(g, w, t, data, position, k, m, position', k');
      assert data[..chunkSize] + [] == data[..chunkSize];
      WritingStore(g, w, t, partition.Now(), data, position, k, k, m, 0, chunkSize, [], position', k');
    }

    /** Looks how far the clusters of the chain, old and newly taken, lie side by side. */
    method GroupClusters(position: FilePosition, data: seq<byte>, ghost w: Request, ghost k: nat)
      returns (chunkEnd: nat, nextChunkStart: nat, m: nat, flag: bool)
      requires partition.Valid() && Writing(partition.g, w, partition.Now(), data, true, position, k)
      requires position.sector == 0 == position.byte && |data| >= partition.g.BytesPerCluster()
      modifies partition.Repr()
      ensures partition.Valid() && Underway(partition.g, w, partition.Now(), data, position, k)
      ensures 0 < m && Start(partition.g, m) <= |data| && SideBySide(partition.chains[w.h], k, m)
      ensures chunkEnd == partition.chains[w.h][k + m - 1]
      ensures nextChunkStart == chunkEnd ||
                (&& k + m < |partition.chains[w.h]|
                 && nextChunkStart == partition.chains[w.h][k + m]
                 && Start(partition.g, m) < |data|)
      ensures flag ==> partition.HintOk()
      ensures !flag ==>
                FreeSet(partition.Links()) == {} && k + m == |partition.chains[w.h]| && Start(partition.g, m) < |data|
    {
      hide ByteOffset, Geometry.Valid, Cache.Valid, Cache.Touched, FatEntries.Links, WellFormed, FreeSet, Progress,
           Raw, SnapOk, Grown, SameData, Splice;
      var g := partition.g;
      var bpc := g.BytesPerCluster();
      GeometryBounds(g);
      OffsetMono(1, g.sectorsPerCluster, g.bytesPerSector);
      OffsetMono(0, 1, bpc);
      OffsetMono(0, 0, bpc);
      OffsetMono(0, 0, g.bytesPerSector);
      chunkEnd, nextChunkStart, m, flag := position.cluster, position.cluster, 1, true;
      var chunkSize := bpc;
      var nextPosition := position;
      while flag && chunkSize + bpc < |data|
        invariant partition.Valid() && Underway(g, w, partition.Now(), data, position, k) && flag && partition.HintOk()
        invariant 0 < m && chunkSize == Start(g, m) <= |data| && SideBySide(partition.chains[w.h], k, m)
        invariant nextChunkStart == chunkEnd == nextPosition.cluster == partition.chains[w.h][k + m - 1]
        invariant nextPosition.byte == 0
        decreases |data| - chunkSize
      {
        nextPosition := nextPosition.(sector := g.sectorsPerCluster);
        ghost var t, off := partition.Now(), w.at + |w.data| - |data|;
        OffsetAdd(k, m - 1, bpc);
        OffsetMono(m - 1, m, bpc);
        OffsetMono(m, m + 1, bpc);
        assert StandsAt(g, t.fs.chains[w.h], k + m - 1, nextPosition, off + chunkSize);
        var ok;
        ghost var k1;
        ok, nextPosition, flag, k1 := CheckPositionForNextCluster(nextPosition, |data| - chunkSize, flag, w.h,
                                                                  k + m - 1, off + chunkSize);
        GrownPrefix(t.fs, partition.Fs(), w.h);
        WritingGrow(g, w, t, partition.Now(), data, position, k, position, k, chunkSize);
        if !flag {
          OffsetAdd(k, m, bpc);
          SameStart(g, k + m, |partition.chains[w.h]|);
          break;
        }
        nextChunkStart := nextPosition.cluster;
        if nextChunkStart != chunkEnd + 1 { break; }
        chunkEnd, chunkSize, m := nextChunkStart, chunkSize + bpc, m + 1;
      }
    }

    /** What is left, less than a cluster: whole sectors, then the last part of one, which is
        zero-filled behind the data when the file ends there. */
    method WriteRest(position: FilePosition, data: seq<byte>, flagNoError: bool, flagAppending: bool,
                     ghost w: Request, ghost k: nat)
      returns (position': FilePosition, rest: seq<byte>, flag: bool, ghost k': nat)
      requires partition.Valid() && Writing(partition.g, w, partition.Now(), data, flagNoError, position, k)
      requires flagNoError && data != [] ==> position.byte == 0 && |data| < partition.g.BytesPerCluster()
      requires flagNoError && data != [] ==>
                 Due(partition.g, position) || |data| < partition.g.bytesPerSector || position.sector == 0
      requires flagAppending ==> w.size <= w.at + |w.data|
      modifies partition.Repr()
      ensures partition.Valid() && Writing(partition.g, w, partition.Now(), rest, flag, position', k')
      ensures flag ==> rest == []
    {
      hide ByteOffset, Geometry.Valid, Cache.Valid, Cache.Touched, FatEntries.Links, WellFormed, Writing;
      var bps := partition.g.bytesPerSector;
      GeometryBounds(partition.g);
      SectorsToEnd(bps, partition.g.sectorsPerCluster, 0, |data|);
      assert flagNoError && data != [] ==> |data| / bps < partition.g.sectorsPerCluster;
      position', flag, k' := NextClusterIfDue(position, data, flagNoError, w, k);
      rest := data;
      var tempVar := |rest| / bps;
      if tempVar > 0 && flag {
        position', rest := WriteSectorsHere(position', rest, tempVar, w, k');
      }
      if |rest| > 0 && flag {
        position' := WriteLastSector(position', rest, flagAppending, w, k');
        rest := [];
      }
    }

    method WriteLastSector(position: FilePosition, data: seq<byte>, flagAppending: bool, ghost w: Request, ghost k: nat)
      returns (position': FilePosition)
      requires partition.Valid() && Writing(partition.g, w, partition.Now(), data, true, position, k)
      requires position.byte == 0 && !Due(partition.g, position) && |data| < partition.g.bytesPerSector
      requires flagAppending ==> w.size <= w.at + |w.data|
      modifies partition.cache.Repr()
      ensures partition.Valid() && Writing(partition.g, w, partition.Now(), [], true, position', k)
    {
      hide ByteOffset, Geometry.Valid, Cache.Valid, Cache.Touched, FatEntries.Links, WellFormed, FreeSet, Progress,
           Raw, SnapOk, Grown, SameData, Splice;
      var g := partition.g;
      ghost var t := partition.Now();
      StoreInSector(g, w, t, data, position, k, |data|);
      var sector := g.ClusterToSector(position.cluster) + position.sector;
      ghost var pad := [];
      if flagAppending {
        pad := Zeros(g.bytesPerSector - |data|);
        partition.EraseWritePartialSector(data, sector);
      } else {
        partition.WritePartialSector(data, sector, 0);
        assert data + pad == data;
      }
      position' := position.(byte := position.byte + |data|);
      assert data[..|data|] == data && data[|data|..] == [];
      WritingStore(g, w, t, partition.Now(), data, position, k, k, 1, ByteOffset(position.sector, g.bytesPerSector),
                   |data|, pad, position', k);
    }

    /** The whole transfer of a write, from the cursor on. */
    method WriteData(position: FilePosition, data: seq<byte>, flagAppending: bool, ghost w: Request, ghost k: nat)
      returns (position': FilePosition, rest: seq<byte>, ghost flag: bool, ghost k': nat)
      requires partition.Valid() && Writing(partition.g, w, partition.Now(), data, true, position, k)
      requires data != [] && (flagAppending ==> w.size <= w.at + |w.data|)
      modifies partition.Repr()
      ensures partition.Valid() && Writing(partition.g, w, partition.Now(), rest, flag, position', k')
      ensures flag ==> rest == []
    {
      hide Geometry.Valid, Partition.Valid, Writing;
      var flagNoError;
      position', flagNoError, k' := NextClusterIfDue(position, data, true, w, k);
      position', rest := WriteAlignSector(position', data, flagNoError, w, k');
      position', rest := WriteAlignCluster(position', rest, flagNoError, w, k');
      position', rest, flagNoError, k' := WriteWholeClusters(position', rest, flagNoError, w, k');
      position', rest, flagNoError, k' := WriteRest(position', rest, flagNoError, flagAppending, w, k');
      flag := flagNoError;
    }

    // ---- extending ----

    /** The cluster behind the k-th of the chain, taken from the free ones if there is none yet. */
    method TakeNext(cluster: nat, ghost h: nat, ghost k: nat) returns (next: nat)
      requires partition.Valid() && partition.HintOk() && h in partition.chains
      requires k < |partition.chains[h]| && cluster == partition.chains[h][k]
      modifies partition.Repr()
      ensures partition.Valid() && SnapOk(partition.g, old(partition.Now())) && SnapOk(partition.g, partition.Now())
      ensures && Grown(old(partition.Fs()), partition.Fs(), h)
              && SameData(partition.g, old(partition.cache.view), partition.cache.view)
      ensures partition.g.IsValidCluster(next) ==>
                && partition.HintOk() && k + 1 < |partition.chains[h]| && next == partition.chains[h][k + 1]
                && (|partition.chains[h]| == |old(partition.chains)[h]| ||
                    (|partition.chains[h]| == |old(partition.chains)[h]| + 1 && k + 1 == |old(partition.chains)[h]|))
      ensures !partition.g.IsValidCluster(next) ==>
                && FreeSet(partition.Links()) == {}
                && partition.chains == old(partition.chains)
                && k + 1 == |partition.chains[h]|
    {
      hide ByteOffset, Geometry.Valid, Cache.Valid, Cache.Touched, FatEntries.Links, WellFormed, FreeSet, IsChain;
      ghost var s, chain := partition.Now(), partition.chains[h];
      SnapIsOk();
      GrownRefl(s.fs, h);
      GeometryBounds(partition.g);
      ChainUsable(partition.g, s, h);
      ChainInRange(s.fs.links, s.fs.chains, h);
      LinkInChain(s.fs.links, chain, k);
      next := partition.LinkFreeCluster(cluster, h);
      SnapIsOk();
    }

    /** Fills the file with zeros from its end up to the current position. */
    method Extend() returns (ok: bool, ghost w: Request, ghost rest: seq<byte>, ghost k': nat, ghost pos: FilePosition)
      requires partition.Valid() && partition.HintOk() && startCluster in partition.chains
      requires filesize < currentPosition
      requires Exactly(partition.g, |partition.chains[startCluster]|, filesize)
            || (filesize == 0 && |partition.chains[startCluster]| == 1)
      modifies partition.Repr(), this`rwPosition, this`filesize
      ensures partition.Valid()
      ensures w
              == Request(old(partition.Now()), startCluster, old(filesize), old(filesize),
                         Zeros(currentPosition - old(filesize)))
      ensures Writing(partition.g, w, partition.Now(), rest, ok, pos, k') && (ok ==> rest == [])
      ensures ok ==> rwPosition == pos && filesize == currentPosition
      ensures !ok ==> rwPosition == old(rwPosition) && filesize == old(filesize)
    {
      hide ByteOffset, Geometry.Valid, Cache.Valid, Cache.Touched, FatEntries.Links, WellFormed, FreeSet, Writing,
           Raw, SnapOk, Grown;
      w := Request(partition.Now(), startCluster, filesize, filesize, Zeros(currentPosition - filesize));
      rest := w.data;
      var position;
      ok, position, k' := EndPosition(w);
      pos := position;
      if !ok { return; }
      ok, position, rest, k' := ZeroFill(position, currentPosition - filesize, w, rest, k');
      pos := position;
      if !ok { return; }
      rwPosition := position;
      filesize := currentPosition;
    }

    /** The cursor at the end of the file, moved onto a new cluster when the last one is full. */
    method EndPosition(ghost w: Request) returns (ok: bool, position: FilePosition, ghost k: nat)
      requires partition.Valid() && partition.HintOk() && startCluster in partition.chains
      requires filesize < currentPosition
      requires Exactly(partition.g, |partition.chains[startCluster]|, filesize)
            || (filesize == 0 && |partition.chains[startCluster]| == 1)
      requires w == Request(partition.Now(), startCluster, filesize, filesize, Zeros(currentPosition - filesize))
      modifies partition.Repr()
      ensures partition.Valid() && Writing(partition.g, w, partition.Now(), w.data, ok, position, k)
      ensures ok ==> !Due(partition.g, position)
    {
      hide ByteOffset, Geometry.Valid, Cache.Valid, Cache.Touched, FatEntries.Links, WellFormed, FreeSet, Progress,
           Raw, SnapOk, Grown, SameData, Splice;
      var g := partition.g;
      ghost var s := partition.Now();
      BpcPositive(g);
      GeometryBounds(g);
      SplitOffset(g, filesize);
      SnapIsOk();
      ChainUsable(g, s, startCluster);
      var last := partition.LastCluster(startCluster);
      position := FilePosition(last, filesize % g.BytesPerCluster() / g.bytesPerSector, filesize % g.bytesPerSector);
      k := |partition.chains[startCluster]| - 1;
      EndOfFile(g, partition.chains[startCluster], filesize, position);
      ProgressStart(g, s, startCluster, filesize, filesize);
      if filesize > 0 && position.sector == 0 && position.byte == 0 {
        ghost var due := FilePosition(last, g.sectorsPerCluster, 0);
        var tempNextCluster := TakeNext(position.cluster, startCluster, k);
        GrownPrefix(s.fs, partition.Fs(), startCluster);
        DueStep(g, w, s, partition.Now(), w.data, due, k, tempNextCluster);
        if !g.IsValidCluster(tempNextCluster) {
          return false, FilePosition(last, g.sectorsPerCluster, 0), k;
        }
        position := FilePosition(tempNextCluster, 0, position.byte);
        k := k + 1;
      }
      ok := true;
    }

    /** The zeros themselves, behind a cursor that is not due. */
    method ZeroFill(position: FilePosition, remain: nat, ghost w: Request, ghost zeros: seq<byte>, ghost k: nat)
      returns (ok: bool, position': FilePosition, ghost rest: seq<byte>, ghost k': nat)
      requires partition.Valid() && Writing(partition.g, w, partition.Now(), zeros, true, position, k)
      requires 0 < remain == |zeros| && !Due(partition.g, position) && w.data == Zeros(|w.data|)
      modifies partition.Repr()
      ensures && partition.Valid()
              && Writing(partition.g, w, partition.Now(), rest, ok, position', k')
              && (ok ==> rest == [])
    {
      hide ByteOffset, Geometry.Valid, Cache.Valid, Cache.Touched, FatEntries.Links, WellFormed, FreeSet, Progress,
           Raw, SnapOk, Grown, SameData, Splice;
      var g := partition.g;
      var bps := g.bytesPerSector;
      GeometryBounds(g);
      var left := remain;
      position', rest, k' := position, zeros, k;
      if left + position'.byte < bps {
        position', rest := ZeroPart(position', left, w, rest, k');
        ok := true;
        return;
      }
      if position'.byte > 0 {
        var n := bps - position'.byte;
        position', rest := ZeroPart(position', n, w, rest, k');
        left := left - n;
      }
      ok, position', left, rest, k' := ZeroSectors(position', left, w, rest, k');
      if !ok { return; }
      position', ok, k' := NextClusterIfDue(position', Zeros(left), true, w, k');
      if !ok { return; }
      if left > 0 {
        position', rest := ZeroPart(position', left, w, rest, k');
      }
    }

    /** n zeros inside the sector of the cursor. */
    method ZeroPart(position: FilePosition, n: nat, ghost w: Request, ghost zeros: seq<byte>, ghost k: nat)
      returns (position': FilePosition, ghost rest: seq<byte>)
      requires partition.Valid() && Writing(partition.g, w, partition.Now(), zeros, true, position, k)
      requires && 0 < n <= |zeros|
               && !Due(partition.g, position)
               && position.byte + n <= partition.g.bytesPerSector
               && w.data == Zeros(|w.data|)
      modifies partition.cache.Repr()
      ensures && partition.Valid()
              && Writing(partition.g, w, partition.Now(), rest, true, position', k)
              && rest == zeros[n..]
      ensures position' == if position.byte + n
              == partition.g.bytesPerSector then FilePosition(position.cluster, position.sector + 1, 0)
                           else position.(byte := position.byte + n)
    {
      hide ByteOffset, Geometry.Valid, Cache.Valid, Cache.Touched, FatEntries.Links, WellFormed, FreeSet, Progress,
           Raw, SnapOk, Grown, SameData, Splice;
      var g := partition.g;
      ghost var t := partition.Now();
      StoreInSector(g, w, t, zeros, position, k, n);
      partition.WritePartialSector(Zeros(n), g.ClusterToSector(position.cluster) + position.sector, position.byte);
      rest := zeros[n..];
      position' := position.(byte := position.byte + n);
      if position'.byte >= g.bytesPerSector {
        position' := position'.(byte := 0, sector := position'.sector + 1);
      }
      assert zeros[..n] + [] == Zeros(n);
      WritingStore(g, w, t, partition.Now(), zeros, position, k, k, 1,
                   ByteOffset(position.sector, g.bytesPerSector) + position.byte, n, [], position', k);
    }

    /** Whole sectors of zeros, one by one, over as many clusters as it takes. */
    method ZeroSectors(position: FilePosition, remain: nat, ghost w: Request, ghost zeros: seq<byte>, ghost k: nat)
      returns (ok: bool, position': FilePosition, left: nat, ghost rest: seq<byte>, ghost k': nat)
      requires partition.Valid() && Writing(partition.g, w, partition.Now(), zeros, true, position, k)
      requires remain == |zeros| && position.byte == 0 && w.data == Zeros(|w.data|)
      modifies partition.Repr()
      ensures partition.Valid() && Writing(partition.g, w, partition.Now(), rest, ok, position', k')
      ensures ok ==> position'.byte == 0 && left == |rest| < partition.g.bytesPerSector
    {
      hide ByteOffset, Geometry.Valid, Cache.Valid, Cache.Touched, FatEntries.Links, WellFormed, FreeSet, Progress,
           Raw, SnapOk, Grown, SameData, Splice;
      var g := partition.g;
      GeometryBounds(g);
      position', left, rest, k' := position, remain, zeros, k;
      while left >= g.bytesPerSector
        invariant partition.Valid() && Writing(g, w, partition.Now(), rest, true, position', k')
        invariant position'.byte == 0 && left == |rest|
      {
        if position'.sector >= g.sectorsPerCluster {
          ghost var t := partition.Now();
          var tempNextCluster := TakeNext(position'.cluster, w.h, k');
          GrownPrefix(t.fs, partition.Fs(), w.h);
          DueStep(g, w, t, partition.Now(), rest, position', k', tempNextCluster);
          if !g.IsValidCluster(tempNextCluster) { ok := false; return; }
          position' := FilePosition(tempNextCluster, 0, 0);
          k' := k' + 1;
        }
        position', rest := ZeroPart(position', g.bytesPerSector, w, rest, k');
        left := left - g.bytesPerSector;
      }
      ok := true;
    }

    // ---- the file as its callers see it ----

    ghost function Repr(): set<object> {
      {this} + partition.Repr()
    }

    /** Everything the file consists of at this moment. */
    ghost function M(): Moment
      requires partition.Mounted()
      reads this, partition.Repr()
    {
      Moment(partition.Now(), H(), Flags(inUse, read, write, modified))
    }

    /** The fields as a value. */
    ghost function H(): Handle
      reads this
    {
      Handle(filesize, startCluster, currentPosition, rwPosition, appendPosition, append)
    }

    /** The chain, if there is one, holds all bytes of the file. */
    ghost predicate Sound()
      reads this, partition.Repr()
    {
      partition.Valid() && SoundAt(partition.g, partition.Now(), H())
    }

    ghost function Content(): (c: seq<byte>)
      requires Sound()
      reads this, partition.Repr()
      ensures |c| == filesize
    {
      ContentAt(partition.g, partition.Now(), H())
    }

    /** The chain has exactly the clusters the size asks for; an append cursor stands at the end. */
    ghost predicate Valid()
      reads this, partition.Repr()
    {
      partition.Valid() && ValidAt(partition.g, partition.Now(), H())
    }

    /** The read/write cursor stands at the current position, unless that is beyond the end. */
    ghost predicate CursorOk()
      requires partition.Mounted()
      reads this, partition.Repr()
    {
      CursorAt(partition.g, partition.Now(), H())
    }

    /** Gives an empty file its first cluster, with the read/write cursor at its start. */
    method TakeFirst() returns (ok: bool)
      requires partition.Valid() && partition.HintOk()
      modifies partition.Repr(), this`startCluster, this`rwPosition
      ensures partition.Valid()
      ensures ok ==>
                && FirstTaken(partition.g, old(partition.Now()), partition.Now(), startCluster)
                && rwPosition == FilePosition(startCluster, 0, 0)
                && startCluster in partition.chains
                && StandsAt(partition.g, partition.chains[startCluster], 0, rwPosition, 0)
                && partition.HintOk()
      ensures !ok ==>
                && FreeSet(partition.Links()) == {}
                && partition.Links() == old(partition.Links())
                && partition.chains == old(partition.chains)
                && partition.cache.view == old(partition.cache.view)
                && partition.numberFreeCluster == old(partition.numberFreeCluster)
                && startCluster == old(startCluster) && rwPosition == old(rwPosition)
    {
      hide ByteOffset, Geometry.Valid, Cache.Valid, Cache.Touched, FatEntries.Links, WellFormed, FreeSet, Allocated,
           FirstTaken;
      ghost var s := partition.Now();
      SnapIsOk();
      GeometryBounds(partition.g);
      var tempNextCluster := partition.LinkFreeCluster(CLUSTER_FREE, 0);
      NoHintNoPhantom(partition.g, s, partition.Now(), tempNextCluster);
      if !partition.g.IsValidCluster(tempNextCluster) { return false; }
      startCluster := tempNextCluster;
      rwPosition := FilePosition(startCluster, 0, 0);
      FirstStands(partition.g, s, partition.Now(), startCluster);
      ok := true;
    }

    /** Makes sure the file has a first cluster, with the cursors at its start if it is new. */
    method FirstCluster() returns (ok: bool)
      requires Valid() && partition.HintOk()
      modifies partition.Repr(), this`startCluster, this`rwPosition, this`appendPosition
      ensures partition.Valid()
      ensures old(startCluster) != CLUSTER_FREE ==>
                && ok && partition.Now() == old(partition.Now()) && startCluster == old(startCluster)
                && rwPosition == old(rwPosition) && appendPosition == old(appendPosition)
      ensures old(startCluster) == CLUSTER_FREE && ok ==>
                && FirstTaken(partition.g, old(partition.Now()), partition.Now(), startCluster)
                && rwPosition == appendPosition == FilePosition(startCluster, 0, 0)
                && StandsAt(partition.g, partition.chains[startCluster], 0, rwPosition, 0)
      ensures ok ==> startCluster in partition.chains && partition.HintOk()
      ensures !ok ==>
                && FreeSet(partition.Links()) == {}
                && partition.Links() == old(partition.Links())
                && partition.chains == old(partition.chains)
                && partition.cache.view == old(partition.cache.view)
                && partition.numberFreeCluster == old(partition.numberFreeCluster)
                && startCluster == CLUSTER_FREE
                && rwPosition == old(rwPosition)
                && appendPosition == old(appendPosition)
    {
      hide ByteOffset, Geometry.Valid, Cache.Valid, Cache.Touched, FatEntries.Links, WellFormed, FreeSet, FirstTaken,
           StandsAt;
      if startCluster == CLUSTER_FREE {
        ok := TakeFirst();
        if !ok { return; }
        appendPosition := FilePosition(startCluster, 0, 0);
      }
      ok := true;
    }

    /** The chain has exactly the clusters the size asks for, or one for a file still empty. */
    ghost predicate SizedRight()
      requires partition.Mounted() && startCluster in partition.chains
      reads this, partition.Repr()
    {
      || Exactly(partition.g, |partition.chains[startCluster]|, filesize)
      || (filesize == 0 && |partition.chains[startCluster]| == 1)
    }

    /** Ready for a transfer: a first cluster is there and the cursors stand where they should. */
    ghost predicate Started()
      reads this, partition.Repr()
    {
      && partition.Valid() && startCluster in partition.chains && filesize <= FILE_MAX_SIZE
      && SizedRight()
      && (append ==> Denotes(partition.g, partition.chains[startCluster], appendPosition, filesize))
      && (currentPosition <= filesize ==>
            Denotes(partition.g, partition.chains[startCluster], rwPosition, currentPosition))
    }

    /** The transfer of d from the cursor on, the gap before it filled first; d is not empty. */
    method WriteFrom(d: seq<byte>) returns (n: int)
      requires Started() && partition.HintOk() && d != []
      modifies partition.Repr(), this`rwPosition, this`appendPosition, this`currentPosition, this`filesize,
               this`modified
      ensures partition.Valid() && Transferred(partition.g, old(partition.Now()), old(H()), partition.Now(), H(), d, n)
      ensures modified == (old(modified) || n >= 0)
    {
      hide ByteOffset, Geometry.Valid, Cache.Valid, Cache.Touched, FatEntries.Links, WellFormed, FreeSet, FileStep,
           Exactly, StandsAt, SnapOk, Room, Denotes, Transferred, GapFilled;
      SnapIsOk();
      ghost var s, f, size, at := partition.Now(), H(), filesize, H().WriteOffset();
      if !append && currentPosition > filesize {
        var ok := FillGap();
        SnapIsOk();
        GapFields(partition.g, s, f, partition.Now(), H(), ok);
        if !ok {
          TransferFailed(partition.g, s, f, partition.Now(), d);
          return -1;
        }
      }
      ghost var t, f1, pos := partition.Now(), H(), rwPosition;
      n, pos := WriteAt(d);
      SnapIsOk();
      if at > size {
        GapThenWrite(partition.g, s, t, partition.Now(), startCluster, size, at, d[..n]);
      }
      TransferDone(partition.g, s, f, partition.Now(), d, n, pos);
    }

    /** The transfer when there is no gap, and the new fields; pos is the cursor behind it. */
    method WriteAt(d: seq<byte>) returns (n: nat, ghost pos: FilePosition)
      requires partition.Valid() && startCluster in partition.chains && SizedRight() && partition.HintOk() && d != []
      requires H().WriteOffset() <= filesize
      requires Denotes(partition.g, partition.chains[startCluster], if append then appendPosition else rwPosition,
                       H().WriteOffset())
      modifies partition.Repr(), this`rwPosition, this`appendPosition, this`currentPosition, this`filesize,
               this`modified
      ensures partition.Valid() && startCluster in partition.chains && n <= |d| && H() == Advanced(old(H()), n, pos)
      ensures FileStep(partition.g, old(partition.Now()), partition.Now(), startCluster, old(filesize),
                       old(H().WriteOffset()), d[..n])
      ensures Denotes(partition.g, partition.chains[startCluster], pos, old(H().WriteOffset()) + n)
      ensures n == |d| <==>
              old(H().WriteOffset()) + |d|
              <= old(Room(partition.g, partition.Links(), |partition.chains[startCluster]|))
      ensures n < |d| ==> FreeSet(partition.Links()) == {}
      ensures n == |d| ==> partition.HintOk()
      ensures modified
    {
      hide ByteOffset, Geometry.Valid, Cache.Valid, Cache.Touched, FatEntries.Links, WellFormed, FreeSet, FileStep,
           Exactly, StandsAt, SnapOk, Room, Denotes;
      var position := rwPosition;
      var flagAppending := false;
      if append {
        position, flagAppending := appendPosition, true;
      } else if |d| + currentPosition > filesize {
        flagAppending := true;
      }
      position, n := Transfer(position, d, flagAppending, H().WriteOffset());
      pos := position;
      modified := true;
      if append {
        appendPosition := position;
        filesize := filesize + n;
      } else {
        rwPosition := position;
        currentPosition := currentPosition + n;
        if filesize < currentPosition { filesize := currentPosition; }
      }
    }

    /** The zeros before the current position when that lies beyond the end. */
    method FillGap() returns (ok: bool)
      requires && partition.Valid()
               && startCluster in partition.chains
               && SizedRight()
               && partition.HintOk()
               && filesize < currentPosition
      modifies partition.Repr(), this`rwPosition, this`filesize
      ensures partition.Valid() && GapFilled(partition.g, old(partition.Now()), old(H()), partition.Now(), H(), ok)
    {
      hide ByteOffset, Geometry.Valid, Cache.Valid, Cache.Touched, FatEntries.Links, WellFormed, FreeSet, Underway,
           FileStep, Exactly, StandsAt, SnapOk, Room, Denotes;
      ghost var s, size := partition.Now(), filesize;
      SnapIsOk();
      SizeFits(partition.g, s, startCluster, size);
      ghost var w, rest, k, pos;
      ok, w, rest, k, pos := Extend();
      CursorOf(partition.g, w, partition.Now(), rest, ok, pos, k);
      RequestStep(partition.g, w, partition.Now(), rest, ok, pos, k);
      StepKeepsChain(partition.g, s, partition.Now(), startCluster, size, size, w.data[..|w.data| - |rest|]);
      assert rest == [] ==> w.data[..|w.data| - |rest|] == w.data;
      assert !ok ==> rest != [] by { BrokenOff(partition.g, w, partition.Now(), rest, ok, pos, k); }
    }

    /** One request, from the cursor on. */
    method Transfer(position: FilePosition, d: seq<byte>, flagAppending: bool, ghost at: nat)
      returns (position': FilePosition, n: nat)
      requires partition.Valid() && startCluster in partition.chains && partition.HintOk() && d != []
      requires || Exactly(partition.g, |partition.chains[startCluster]|, filesize)
               || (filesize == 0 && |partition.chains[startCluster]| == 1)
      requires Denotes(partition.g, partition.chains[startCluster], position, at) && at <= filesize
      requires flagAppending ==> filesize <= at + |d|
      modifies partition.Repr()
      ensures partition.Valid() && startCluster in partition.chains && n <= |d|
      ensures FileStep(partition.g, old(partition.Now()), partition.Now(), startCluster, filesize, at, d[..n])
      ensures Denotes(partition.g, partition.chains[startCluster], position', at + n)
      ensures n == |d| <==> at + |d| <= old(Room(partition.g, partition.Links(), |partition.chains[startCluster]|))
      ensures n < |d| ==> FreeSet(partition.Links()) == {}
      ensures n == |d| ==> partition.HintOk()
    {
      hide ByteOffset, Geometry.Valid, Cache.Valid, Cache.Touched, FatEntries.Links, WellFormed, FreeSet, Underway,
           FileStep, Exactly, StandsAt, SnapOk, Room;
      ghost var t := partition.Now();
      SnapIsOk();
      SizeFits(partition.g, t, startCluster, filesize);
      ghost var k :| StandsAt(partition.g, partition.chains[startCluster], k, position, at);
      ghost var w := Request(t, startCluster, at, filesize, d);
      BeginRequest(partition.g, w, position, k);
      ghost var flag;
      var left;
      position', left, flag, k := WriteData(position, d, flagAppending, w, k);
      CursorOf(partition.g, w, partition.Now(), left, flag, position', k);
      RequestStep(partition.g, w, partition.Now(), left, flag, position', k);
      StepKeepsChain(partition.g, t, partition.Now(), startCluster, filesize, at, d[..|d| - |left|]);
      n := |d| - |left|;
    }

    /** _FAT_write_r.  The content becomes the old content overlaid with what was written, at the
        end for an append handle and at the current position otherwise, with zeros in a gap; all of
        it is written exactly when the disc has room, otherwise the disc is full afterwards. */
    method Write(data: seq<byte>) returns (n: int)
      requires Valid() && CursorOk() && partition.HintOk()
      requires append || currentPosition + H().Fitting(|data|) <= FILE_MAX_SIZE
      modifies this, partition.Repr()
      ensures partition.Valid()
      ensures SoundAt(partition.g, old(partition.Now()), old(H())) && WriteCall(partition.g, old(M()), data, n, M())
    {
      hide ByteOffset, Geometry.Valid, Cache.Valid, Cache.Touched, FatEntries.Links, WellFormed, FreeSet, FileStep,
           Exactly, StandsAt, SnapOk, Room, Denotes, OthersKept, FirstTaken, Overlay, Transferred, WriteOutcome;
      ghost var s, f := partition.Now(), H();
      if !inUse || !write { return -1; }
      var len := |data|;
      if len + filesize > FILE_MAX_SIZE { len := FILE_MAX_SIZE - filesize; }
      if len == 0 { return 0; }
      var ok := FirstCluster();
      if !ok {
        SnapIsOk();
        WriteRefused(partition.g, s, partition.Now(), f, data[..len]);
        return -1;
      }
      ghost var s1, f1 := partition.Now(), H();
      ReadyToWrite(partition.g, s, f, s1, f1);
      n := WriteFrom(data[..len]);
      SizeStays(partition.g, s1, f1, partition.Now(), H(), data[..len], n);
      if f.startCluster == CLUSTER_FREE {
        WriteToEmpty(partition.g, s, f, s1, f1, partition.Now(), H(), data[..len], n);
      } else {
        WriteToChain(partition.g, s, f, partition.Now(), H(), data[..len], n);
      }
    }

    // ---- opening ----

    /** The part of _FAT_open_r that sets up an open file from its directory entry: truncation when
        asked for, the read/write cursor at the start, the append cursor at the end.  A file just
        created counts as modified. */
    method Open(entrySize: nat, entryCluster: nat, canRead: bool, canWrite: bool, appending: bool, truncating: bool,
                created: bool)
      requires partition.Valid() && ValidAt(partition.g, partition.Now(), Entry(entrySize, entryCluster))
      modifies this, partition.Repr()
      ensures && Valid()
              && CursorOk()
              && inUse
              && read == canRead
              && write == canWrite
              && append == appending
              && currentPosition == 0
      ensures truncating && canWrite ==>
                TruncateOutcome(partition.g, old(partition.Now()), Entry(entrySize, entryCluster),
                                partition.Now(), Entry(filesize, startCluster)
                                  .(rwPosition := Entry(entrySize, entryCluster).rwPosition), 0, 0)
                && filesize == 0
      ensures !(truncating && canWrite) ==>
                partition.Now() == old(partition.Now()) && filesize == entrySize && startCluster == entryCluster
      ensures Content() == if truncating && canWrite then []
                           else old(ContentAt(partition.g, partition.Now(), Entry(entrySize, entryCluster)))
      ensures modified == (created || (truncating && canWrite && entryCluster != CLUSTER_FREE))
    {
      hide ByteOffset, Geometry.Valid, Cache.Valid, Cache.Touched, FatEntries.Links, WellFormed, FreeSet, StandsAt,
           Room, OthersKept, TruncateOutcome, Exactly, Raw, FileRaw, Denotes, CursorAt, SoundAt, ValidAt, ContentAt;
      modified := created;
      OpenEntry(entrySize, entryCluster, canWrite && truncating);
      if truncating && canWrite { NothingLeft(partition.g, partition.Now(), Entry(filesize, startCluster)); }
      SetUp(canRead, canWrite, appending);
    }

    /** The cursors and flags of a file whose size and start are known. */
    method SetUp(canRead: bool, canWrite: bool, appending: bool)
      requires partition.Valid() && ValidAt(partition.g, partition.Now(), Entry(filesize, startCluster))
      modifies this`currentPosition, this`rwPosition, this`appendPosition, this`append, this`read, this`write,
               this`inUse, partition.cache.Repr()
      ensures Valid() && CursorOk() && partition.Now() == old(partition.Now())
      ensures inUse && read == canRead && write == canWrite && append == appending && currentPosition == 0
      ensures Content() == old(ContentAt(partition.g, partition.Now(), Entry(filesize, startCluster)))
    {
      hide ByteOffset, Geometry.Valid, Cache.Valid, Cache.Touched, FatEntries.Links, WellFormed, FreeSet, StandsAt,
           Room, OthersKept, Exactly, Raw, FileRaw, Denotes, CursorAt, SoundAt, ValidAt, ContentAt;
      ghost var t := partition.Now();
      currentPosition, rwPosition := 0, FilePosition(startCluster, 0, 0);
      appendPosition := rwPosition;
      append, read, write, inUse := appending, canRead, canWrite, true;
      if appending {
        SameFile(partition.g, t, Entry(filesize, startCluster), H().(append := false));
        AppendAtEnd();
      }
      assert partition.Now() == t;
      OpenedIsValid(partition.g, t, H());
    }

    /** The size and start of the entry, after the truncation if there is one. */
    method OpenEntry(entrySize: nat, entryCluster: nat, truncating: bool)
      requires partition.Valid() && ValidAt(partition.g, partition.Now(), Entry(entrySize, entryCluster))
      modifies this`filesize, this`startCluster, this`modified, partition.Repr()
      ensures partition.Valid() && ValidAt(partition.g, partition.Now(), Entry(filesize, startCluster))
      ensures truncating ==>
                TruncateOutcome(partition.g, old(partition.Now()), Entry(entrySize, entryCluster),
                                partition.Now(), Entry(filesize, startCluster)
                                  .(rwPosition := Entry(entrySize, entryCluster).rwPosition), 0, 0)
                && filesize == 0
      ensures !truncating ==>
                partition.Now() == old(partition.Now()) && filesize == entrySize && startCluster == entryCluster
      ensures modified == (old(modified) || (truncating && entryCluster != CLUSTER_FREE))
    {
      hide ByteOffset, Geometry.Valid, Cache.Valid, Cache.Touched, FatEntries.Links, WellFormed, FreeSet, StandsAt,
           Room, OthersKept, TruncateOutcome, Exactly, Raw, FileRaw, Denotes;
      ghost var s, f := partition.Now(), Entry(entrySize, entryCluster);
      StartAndSize(partition.g, s, f);
      filesize, startCluster := entrySize, entryCluster;
      if truncating && startCluster != 0 {
        SnapIsOk();
        ChainUsable(partition.g, s, startCluster);
        var ok := partition.ClearChain(startCluster);
        startCluster := CLUSTER_FREE;
        filesize := 0;
        modified := true;
        SnapIsOk();
        ShrinkToNothing(partition.g, s, f, partition.Now(),
                        f.(filesize := 0, startCluster := CLUSTER_FREE,
                           appendPosition := FilePosition(CLUSTER_FREE, 0, 0)));
        EmptyIsValid(partition.g, partition.Now());
      } else if truncating {
        ResizeToSame(partition.g, s, f);
      }
    }

    /** The append cursor at the end of the file, due when the last cluster is full. */
    method AppendAtEnd()
      requires partition.Valid() && ValidAt(partition.g, partition.Now(), H().(append := false))
      modifies this`appendPosition, partition.cache.Repr()
      ensures partition.Valid() && partition.Now() == old(partition.Now())
      ensures startCluster != CLUSTER_FREE ==>
                && startCluster in partition.chains
                && Denotes(partition.g, partition.chains[startCluster], appendPosition, filesize)
    {
      hide ByteOffset, Geometry.Valid, Cache.Valid, Cache.Touched, FatEntries.Links, WellFormed, FreeSet, StandsAt,
           Room, Exactly;
      var g := partition.g;
      StartAndSize(g, partition.Now(), H().(append := false));
      BpcPositive(g);
      GeometryBounds(g);
      SplitOffset(g, filesize);
      if startCluster != CLUSTER_FREE { ChainUsable(g, partition.Now(), startCluster); }
      var last := partition.LastCluster(startCluster);
      appendPosition := FilePosition(last, filesize % g.BytesPerCluster() / g.bytesPerSector,
                                     filesize % g.bytesPerSector);
      if startCluster != CLUSTER_FREE {
        EndOfFile(g, partition.chains[startCluster], filesize, appendPosition);
      }
      if filesize > 0 && filesize % g.BytesPerCluster() == 0 {
        appendPosition := appendPosition.(sector := g.sectorsPerCluster, byte := 0);
      }
      if startCluster != CLUSTER_FREE {
        StandsSomewhere(g, partition.chains[startCluster], |partition.chains[startCluster]| - 1, appendPosition,
                        filesize);
      }
    }

    // ---- reading ----

    /** The rest of the sector the cursor stands in.  A due cursor stands in no sector of its
        cluster: asked for less than a sector, this step reads behind the cluster. */
    method ReadAlignSector(position: FilePosition, remain: nat, ghost h: nat, ghost k: nat, ghost off: nat)
      returns (position': FilePosition, got: seq<byte>)
      requires partition.Valid() && remain > 0
      requires Reading(partition.g, partition.Now(), h, k, position, off, remain)
      requires Due(partition.g, position) && remain < partition.g.bytesPerSector ==>
                 partition.g.ClusterToSector(position.cluster) + position.sector < partition.g.endOfPartition
      modifies partition.cache.Repr()
      ensures partition.Valid() && partition.Now() == old(partition.Now())
      ensures |got| <= remain
      ensures Due(partition.g, position) && remain < partition.g.bytesPerSector ==>
                && position' == position.(byte := remain)
                && |got| == remain
                && BehindCluster(partition.g, partition.Now(), position, got)
      ensures !(Due(partition.g, position) && remain < partition.g.bytesPerSector) ==>
                && Reading(partition.g, partition.Now(), h, k, position', off + |got|, remain - |got|)
                && got == FileRaw(partition.g, partition.Now(), h)[off..off + |got|]
                && (|got| < remain ==> position'.byte == 0)
    {
      hide ByteOffset, Geometry.Valid, Cache.Valid, Cache.Touched, FatEntries.Links, WellFormed, Raw, Reading,
           StandsAt, FileRaw, SnapOk;
      var g := partition.g;
      ghost var t := partition.Now();
      NothingRead(g, t, h, k, position, off, remain);
      position', got := position, [];
      var tempVar := g.bytesPerSector - position.byte;
      if tempVar > remain { tempVar := remain; }
      if !Due(g, position) { PartOfSector(g, t, h, k, position, off, remain, tempVar); }
      if tempVar < g.bytesPerSector {
        var ok;
        ok, got := partition.cache.ReadPartialSector(g.ClusterToSector(position.cluster) + position.sector,
                                                     position.byte, tempVar);
        position' := position.(byte := position.byte + tempVar);
        if position'.byte >= g.bytesPerSector {
          position' := position'.(byte := 0, sector := position'.sector + 1);
        }
      } else {
        assert off + 0 == off && remain - 0 == remain;
      }
    }

    /** Whole sectors up to the end of the cluster. */
    method ReadAlignCluster(position: FilePosition, remain: nat, ghost h: nat, ghost k: nat, ghost off: nat)
      returns (position': FilePosition, got: seq<byte>)
      requires partition.Valid() && position.sector <= partition.g.sectorsPerCluster
      requires remain > 0 ==> Reading(partition.g, partition.Now(), h, k, position, off, remain) && position.byte == 0
      modifies partition.cache.Repr()
      ensures partition.Valid() && partition.Now() == old(partition.Now())
      ensures |got| <= remain && (remain == 0 ==> position' == position)
      ensures remain > 0 ==>
                && Reading(partition.g, partition.Now(), h, k, position', off + |got|, remain - |got|)
                && got == FileRaw(partition.g, partition.Now(), h)[off..off + |got|]
      ensures |got| < remain ==>
                position'.byte == 0 && (Due(partition.g, position') || remain - |got| < partition.g.bytesPerSector)
    {
      hide ByteOffset, Geometry.Valid, Cache.Valid, Cache.Touched, FatEntries.Links, WellFormed, Raw;
      var g := partition.g;
      GeometryBounds(g);
      var bps, spc := g.bytesPerSector, g.sectorsPerCluster;
      position', got := position, [];
      SectorsToEnd(bps, spc, position.sector, remain);
      var tempVar := remain / bps;
      if remain > ByteOffset(spc - position.sector, bps) {
        tempVar := spc - position.sector;
      }
      if tempVar > 0 {
        position', got := ReadSectorsHere(position, tempVar, h, k, off, remain);
      }
    }

    /** n whole sectors at the cursor, all in its cluster. */
    method ReadSectorsHere(position: FilePosition, n: nat, ghost h: nat, ghost k: nat, ghost off: nat,
                           ghost remain: nat)
      returns (position': FilePosition, got: seq<byte>)
      requires partition.Valid() && Reading(partition.g, partition.Now(), h, k, position, off, remain)
      requires && position.byte == 0
               && position.sector + n <= partition.g.sectorsPerCluster
               && ByteOffset(n, partition.g.bytesPerSector) <= remain
      modifies partition.cache.Repr()
      ensures partition.Valid() && partition.Now() == old(partition.Now())
      ensures |got| == ByteOffset(n, partition.g.bytesPerSector) <= remain
      ensures position' == position.(sector := position.sector + n)
      ensures Reading(partition.g, partition.Now(), h, k, position', off + |got|, remain - |got|)
      ensures got == FileRaw(partition.g, partition.Now(), h)[off..off + |got|]
    {
      hide ByteOffset, Geometry.Valid, Cache.Valid, Cache.Touched, FatEntries.Links, WellFormed, Raw;
      var g := partition.g;
      ghost var t := partition.Now();
      ChainUsable(g, t, h);
      SectorsFit(g, position.cluster, position.sector, n);
      ReadHere(g, t, h, k, position, off, ByteOffset(n, g.bytesPerSector));
      var ok;
      ok, got := partition.cache.ReadSectors(g.ClusterToSector(position.cluster) + position.sector, n);
      position' := position.(sector := position.sector + n);
    }

    /** Past the end of a cluster the cursor moves onto the next one, if there is one. */
    method ReadNextCluster(position: FilePosition, remain: nat, ghost h: nat, ghost k: nat)
      returns (flagNoError: bool, position': FilePosition, ghost k': nat)
      requires && partition.Valid()
               && h in partition.chains
               && k < |partition.chains[h]|
               && position.cluster == partition.chains[h][k]
      requires position.sector <= partition.g.sectorsPerCluster
      requires remain > 0 && Due(partition.g, position) ==> k + 1 < |partition.chains[h]|
      modifies partition.cache.Repr()
      ensures partition.Valid() && partition.Now() == old(partition.Now()) && flagNoError
      ensures Due(partition.g, position) && k + 1 < |partition.chains[h]| ==>
                position' == FilePosition(partition.chains[h][k + 1], 0, position.byte) && k' == k + 1
      ensures !(Due(partition.g, position) && k + 1 < |partition.chains[h]|) ==> position' == position && k' == k
    {
      hide ByteOffset, Geometry.Valid, Cache.Valid, Cache.Touched, FatEntries.Links, WellFormed, Raw, IsChain;
      GeometryBounds(partition.g);
      ghost var s, chain := partition.Now(), partition.chains[h];
      ChainInRange(s.fs.links, s.fs.chains, h);
      IndicesInRange(s.fs.links, chain);
      LinkInChain(s.fs.links, chain, k);
      flagNoError, position', k' := true, position, k;
      if position.sector >= partition.g.sectorsPerCluster {
        var tempNextCluster := partition.NextCluster(position.cluster);
        if remain == 0 && tempNextCluster == CLUSTER_EOF {
          position' := position.(sector := partition.g.sectorsPerCluster);
        } else if !partition.g.IsValidCluster(tempNextCluster) {
          flagNoError := false;
        } else {
          position' := FilePosition(tempNextCluster, 0, position.byte);
          k' := k + 1;
        }
      }
    }

    /** Whole clusters, neighbouring ones in one go. */
    method ReadWholeClusters(position: FilePosition, remain: nat, ghost h: nat, ghost k: nat, ghost off: nat)
      returns (flagNoError: bool, position': FilePosition, got: seq<byte>, ghost k': nat)
      requires partition.Valid()
      requires remain > 0 ==>
                 && Reading(partition.g, partition.Now(), h, k, position, off, remain) && !Due(partition.g, position)
                 && position.byte == 0 && (remain < partition.g.bytesPerSector || position.sector == 0)
      modifies partition.cache.Repr()
      ensures partition.Valid() && partition.Now() == old(partition.Now()) && flagNoError
      ensures |got| <= remain && (remain == 0 ==> position' == position && k' == k)
      ensures remain > 0 ==>
                && Reading(partition.g, partition.Now(), h, k', position', off + |got|, remain - |got|)
                && got == FileRaw(partition.g, partition.Now(), h)[off..off + |got|]
      ensures |got| < remain ==>
                && remain - |got| < partition.g.BytesPerCluster() && !Due(partition.g, position') && position'.byte == 0
                && (remain - |got| < partition.g.bytesPerSector || position'.sector == 0)
    {
      hide ByteOffset, Geometry.Valid, Cache.Valid, Cache.Touched, FatEntries.Links, WellFormed, Raw, StandsAt;
      var g := partition.g;
      ghost var t := partition.Now();
      BpcPositive(g);
      flagNoError, position', got, k' := true, position, [], k;
      var left: nat := remain;
      while left >= g.BytesPerCluster() && flagNoError
        invariant partition.Valid() && partition.Now() == t && flagNoError
        invariant left + |got| == remain
        invariant remain == 0 ==> position' == position && k' == k
        invariant remain > 0 ==>
                    Reading(g, t, h, k', position', off + |got|, left) && got == FileRaw(g, t, h)[off..off + |got|]
        invariant left > 0 ==>
                    !Due(g, position') && position'.byte == 0 && (left < g.bytesPerSector || position'.sector == 0)
        decreases left
      {
        var some;
        flagNoError, position', some, k' := ReadChunk(position', left, h, k', off + |got|);
        Joined(FileRaw(g, t, h), off, off + |got|, off + |got| + |some|);
        got := got + some;
        left := left - |some|;
      }
    }

    /** One round: as many neighbouring clusters as are wanted. */
    method ReadChunk(position: FilePosition, remain: nat, ghost h: nat, ghost k: nat, ghost off: nat)
      returns (flagNoError: bool, position': FilePosition, got: seq<byte>, ghost k': nat)
      requires partition.Valid() && Reading(partition.g, partition.Now(), h, k, position, off, remain)
      requires && position.sector == 0 == position.byte
               && partition.g.BytesPerCluster() <= remain
               && partition.g.BytesPerCluster() > 0
      modifies partition.cache.Repr()
      ensures partition.Valid() && partition.Now() == old(partition.Now()) && flagNoError
      ensures 0 < |got| <= remain
      ensures Reading(partition.g, partition.Now(), h, k', position', off + |got|, remain - |got|)
      ensures got == FileRaw(partition.g, partition.Now(), h)[off..off + |got|]
      ensures position'.byte == 0 && (|got| < remain ==> position'.sector == 0 && !Due(partition.g, position'))
    {
      hide ByteOffset, Geometry.Valid, Cache.Valid, Cache.Touched, FatEntries.Links, WellFormed, Raw, IsChain,
           SideBySide, StandsAt, FileRaw;
      var g := partition.g;
      GeometryBounds(g);
      ghost var t := partition.Now();
      var chunkEnd, nextChunkStart;
      var m: nat;
      chunkEnd, nextChunkStart, m := GroupForReading(position, remain, h, k, off);
      var chunkSize := Start(g, m);
      ReadRun(g, t, h, k, position, off, m, remain);
      var ok;
      ok, got := partition.cache.ReadSectors(g.ClusterToSector(position.cluster), chunkSize / g.bytesPerSector);
      flagNoError := true;
      if remain - chunkSize == 0 && nextChunkStart == CLUSTER_EOF {
        position', k' := FilePosition(chunkEnd, g.sectorsPerCluster, position.byte), k + m - 1;
      } else if !g.IsValidCluster(nextChunkStart) {
        flagNoError := false;
        position', k' := position, k;
      } else {
        position', k' := FilePosition(nextChunkStart, 0, position.byte), k + m;
      }
    }

    /** Follows the links as long as they name the very next cluster and whole clusters are wanted. */
    method GroupForReading(position: FilePosition, remain: nat, ghost h: nat, ghost k: nat, ghost off: nat)
      returns (chunkEnd: nat, nextChunkStart: nat, m: nat)
      requires partition.Valid() && Reading(partition.g, partition.Now(), h, k, position, off, remain)
      requires && position.sector == 0 == position.byte
               && partition.g.BytesPerCluster() <= remain
               && partition.g.BytesPerCluster() > 0
      modifies partition.cache.Repr()
      ensures partition.Valid() && partition.Now() == old(partition.Now())
      ensures 0 < m && Start(partition.g, m) <= remain && SideBySide(partition.chains[h], k, m)
      ensures chunkEnd == partition.chains[h][k + m - 1]
      ensures nextChunkStart == if k + m == |partition.chains[h]| then CLUSTER_EOF else partition.chains[h][k + m]
    {
      hide ByteOffset, Geometry.Valid, Cache.Valid, Cache.Touched, FatEntries.Links, WellFormed, Raw, IsChain;
      var g := partition.g;
      var bpc := g.BytesPerCluster();
      GeometryBounds(g);
      ghost var t, chain := partition.Now(), partition.chains[h];
      ChainInRange(t.fs.links, t.fs.chains, h);
      IndicesInRange(t.fs.links, chain);
      OffsetMono(0, 0, bpc);
      OffsetMono(0, 1, bpc);
      chunkEnd := position.cluster;
      LinkInChain(t.fs.links, chain, k);
      nextChunkStart := partition.NextCluster(chunkEnd);
      var chunkSize := bpc;
      m := 1;
      while nextChunkStart == chunkEnd + 1 && chunkSize + bpc <= remain
        invariant partition.Valid() && partition.Now() == t
        invariant 0 < m && chunkSize == Start(g, m) <= remain && SideBySide(chain, k, m)
        invariant chunkEnd == chain[k + m - 1]
        invariant nextChunkStart == if k + m == |chain| then CLUSTER_EOF else chain[k + m]
        decreases remain - chunkSize
      {
        assert k + m < |chain|;
        chunkEnd := nextChunkStart;
        LinkInChain(t.fs.links, chain, k + m);
        nextChunkStart := partition.NextCluster(chunkEnd);
        OffsetMono(m, m + 1, bpc);
        chunkSize, m := chunkSize + bpc, m + 1;
      }
    }

    /** The whole sectors of what is left, less than a cluster. */
    method ReadLastSectors(position: FilePosition, remain: nat, ghost h: nat, ghost k: nat, ghost off: nat)
      returns (position': FilePosition, got: seq<byte>)
      requires partition.Valid() && 0 < remain && Reading(partition.g, partition.Now(), h, k, position, off, remain)
      requires remain < partition.g.BytesPerCluster() && !Due(partition.g, position) && position.byte == 0
      requires remain < partition.g.bytesPerSector || position.sector == 0
      modifies partition.cache.Repr()
      ensures partition.Valid() && partition.Now() == old(partition.Now())
      ensures |got| <= remain < |got| + partition.g.bytesPerSector
      ensures Reading(partition.g, partition.Now(), h, k, position', off + |got|, remain - |got|)
      ensures got == FileRaw(partition.g, partition.Now(), h)[off..off + |got|]
      ensures |got| < remain ==> !Due(partition.g, position') && position'.byte == 0
    {
      hide ByteOffset, Geometry.Valid, Cache.Valid, Cache.Touched, FatEntries.Links, WellFormed, Raw, FileRaw,
           StandsAt, Reading;
      var g := partition.g;
      GeometryBounds(g);
      NothingRead(g, partition.Now(), h, k, position, off, remain);
      position', got := position, [];
      OffsetDiv(remain, g.bytesPerSector);
      var tempVar := remain / g.bytesPerSector;
      PartOfCluster(g, remain, tempVar);
      if tempVar > 0 {
        position', got := ReadSectorsHere(position, tempVar, h, k, off, remain);
      }
    }

    /** The last sectors, less than a cluster, and the last part of one. */
    method ReadRest(position: FilePosition, remain: nat, ghost h: nat, ghost k: nat, ghost off: nat)
      returns (position': FilePosition, got: seq<byte>)
      requires partition.Valid() && 0 < remain && Reading(partition.g, partition.Now(), h, k, position, off, remain)
      requires remain < partition.g.BytesPerCluster() && !Due(partition.g, position) && position.byte == 0
      requires remain < partition.g.bytesPerSector || position.sector == 0
      modifies partition.cache.Repr()
      ensures partition.Valid() && partition.Now() == old(partition.Now())
      ensures |got| == remain && Reading(partition.g, partition.Now(), h, k, position', off + |got|, 0)
      ensures got == FileRaw(partition.g, partition.Now(), h)[off..off + |got|]
    {
      hide ByteOffset, Geometry.Valid, Cache.Valid, Cache.Touched, FatEntries.Links, WellFormed, Raw, FileRaw,
           StandsAt, Reading;
      var g := partition.g;
      ghost var t := partition.Now();
      GeometryBounds(g);
      position', got := ReadLastSectors(position, remain, h, k, off);
      if |got| < remain {
        var some;
        position', some := ReadLastSector(position', remain - |got|, h, k, off + |got|);
        JoinRead(g, t, h, off, got, some, k, position', 0);
        got := got + some;
      }
    }

    method ReadLastSector(position: FilePosition, n: nat, ghost h: nat, ghost k: nat, ghost off: nat)
      returns (position': FilePosition, got: seq<byte>)
      requires partition.Valid() && Reading(partition.g, partition.Now(), h, k, position, off, n)
      requires !Due(partition.g, position) && position.byte == 0 && n < partition.g.bytesPerSector
      modifies partition.cache.Repr()
      ensures partition.Valid() && partition.Now() == old(partition.Now()) && |got| == n
      ensures Reading(partition.g, partition.Now(), h, k, position', off + n, 0)
      ensures got == FileRaw(partition.g, partition.Now(), h)[off..off + n]
    {
      hide ByteOffset, Geometry.Valid, Cache.Valid, Cache.Touched, FatEntries.Links, WellFormed, Raw;
      var g := partition.g;
      ghost var t := partition.Now();
      ChainUsable(g, t, h);
      SectorsFit(g, position.cluster, position.sector, 1);
      OffsetMono(0, 1, g.bytesPerSector);
      OffsetMono(0, 0, g.bytesPerSector);
      ReadHere(g, t, h, k, position, off, n);
      var ok;
      ok, got := partition.cache.ReadPartialSector(g.ClusterToSector(position.cluster) + position.sector, 0, n);
      position' := position.(byte := position.byte + n);
    }

    /** The transfer up to the start of a cluster. */
    method ReadHead(len: nat, ghost h: nat, ghost k: nat, ghost off: nat)
      returns (position: FilePosition, buffer: seq<byte>, ghost k': nat)
      requires partition.Valid() && 0 < len && Reading(partition.g, partition.Now(), h, k, rwPosition, off, len)
      requires Due(partition.g, rwPosition) && len < partition.g.bytesPerSector ==>
                 partition.g.ClusterToSector(rwPosition.cluster) + rwPosition.sector < partition.g.endOfPartition
      modifies partition.cache.Repr()
      ensures partition.Valid() && partition.Now() == old(partition.Now())
      ensures && |buffer| <= len
              && h in partition.chains
              && StandsAt(partition.g, partition.chains[h], k', position, off + |buffer|)
      ensures !(Due(partition.g, rwPosition) && len < partition.g.bytesPerSector) ==>
                && Reading(partition.g, partition.Now(), h, k', position, off + |buffer|, len - |buffer|)
                && buffer == FileRaw(partition.g, partition.Now(), h)[off..off + |buffer|]
                && (|buffer| < len ==> position.byte == 0 && !Due(partition.g, position)
                                       && (len - |buffer| < partition.g.bytesPerSector || position.sector == 0))
      ensures Due(partition.g, rwPosition) && len < partition.g.bytesPerSector ==>
                |buffer| == len && BehindCluster(partition.g, partition.Now(), rwPosition, buffer)
    {
      hide ByteOffset, Geometry.Valid, Cache.Valid, Cache.Touched, FatEntries.Links, WellFormed, Raw, FileRaw,
           Reading, StandsAt;
      ghost var t := partition.Now();
      GeometryBounds(partition.g);
      ghost var misread := Due(partition.g, rwPosition) && len < partition.g.bytesPerSector;
      NextExists(partition.g, t, h, k, rwPosition, off, len);
      ReadingIs(partition.g, t, h, k, rwPosition, off, len);
      var got;
      position, buffer := ReadAlignSector(rwPosition, len, h, k, off);
      if !misread { ReadingIs(partition.g, t, h, k, position, off + |buffer|, len - |buffer|); }
      position, got := ReadAlignCluster(position, len - |buffer|, h, k, off + |buffer|);
      if !misread { JoinRead(partition.g, t, h, off, buffer, got, k, position, len - |buffer| - |got|); }
      buffer := buffer + got;
      ghost var here, there := position, off + |buffer|;
      if !misread { NextExists(partition.g, t, h, k, position, there, len - |buffer|); }
      var flagNoError;
      flagNoError, position, k' := ReadNextCluster(position, len - |buffer|, h, k);
      AcrossCluster(partition.g, t, h, k, here, there, len - |buffer|, misread, position, k');
    }

    /** The transfer from there on. */
    method ReadTail(start: FilePosition, remain: nat, ghost h: nat, ghost k: nat, ghost off: nat)
      returns (position: FilePosition, buffer: seq<byte>, ghost k': nat)
      requires partition.Valid() && 0 < remain && Reading(partition.g, partition.Now(), h, k, start, off, remain)
      requires !Due(partition.g, start) && start.byte == 0 && (remain < partition.g.bytesPerSector || start.sector == 0)
      modifies partition.cache.Repr()
      ensures partition.Valid() && partition.Now() == old(partition.Now())
      ensures |buffer| == remain && Reading(partition.g, partition.Now(), h, k', position, off + |buffer|, 0)
      ensures buffer == FileRaw(partition.g, partition.Now(), h)[off..off + |buffer|]
    {
      hide ByteOffset, Geometry.Valid, Cache.Valid, Cache.Touched, FatEntries.Links, WellFormed, Raw, FileRaw,
           Reading, StandsAt;
      var flagNoError;
      flagNoError, position, buffer, k' := ReadWholeClusters(start, remain, h, k, off);
      if |buffer| < remain {
        var got;
        position, got := ReadRest(position, remain - |buffer|, h, k', off + |buffer|);
        JoinRead(partition.g, partition.Now(), h, off, buffer, got, k', position, 0);
        buffer := buffer + got;
      }
    }

    /** Everything a read transfers once it knows how much. */
    method ReadData(len: nat, ghost h: nat, ghost k: nat, ghost off: nat)
      returns (position: FilePosition, buffer: seq<byte>, ghost k': nat)
      requires partition.Valid() && 0 < len && Reading(partition.g, partition.Now(), h, k, rwPosition, off, len)
      requires Due(partition.g, rwPosition) && len < partition.g.bytesPerSector ==>
                 partition.g.ClusterToSector(rwPosition.cluster) + rwPosition.sector < partition.g.endOfPartition
      modifies partition.cache.Repr()
      ensures partition.Valid() && partition.Now() == old(partition.Now())
      ensures && |buffer| == len
              && h in partition.chains
              && StandsAt(partition.g, partition.chains[h], k', position, off + len)
      ensures !(Due(partition.g, rwPosition) && len < partition.g.bytesPerSector) ==>
                && off + len <= |FileRaw(partition.g, partition.Now(), h)|
                && buffer == FileRaw(partition.g, partition.Now(), h)[off..off + len]
      ensures Due(partition.g, rwPosition) && len < partition.g.bytesPerSector ==>
                BehindCluster(partition.g, partition.Now(), rwPosition, buffer)
    {
      hide ByteOffset, Geometry.Valid, Cache.Valid, Cache.Touched, FatEntries.Links, WellFormed, Raw, FileRaw, StandsAt;
      position, buffer, k' := ReadHead(len, h, k, off);
      if |buffer| < len {
        var got;
        position, got, k' := ReadTail(position, len - |buffer|, h, k', off + |buffer|);
        JoinRead(partition.g, partition.Now(), h, off, buffer, got, k', position, 0);
        buffer := buffer + got;
      }
    }

    /** _FAT_read_r.  Reads exactly the bytes from the current position on, as far as the file goes,
        unless the read starts due at a full cluster and asks for less than a sector. */
    method Read(len: nat) returns (n: int, buffer: seq<byte>)
      requires Valid() && CursorOk()
      requires Misread(partition.g, H(), len) ==>
                 partition.g.ClusterToSector(rwPosition.cluster) + rwPosition.sector < partition.g.endOfPartition
      modifies this`rwPosition, this`currentPosition, partition.cache.Repr()
      ensures Valid() && CursorOk() && partition.Now() == old(partition.Now())
      ensures SoundAt(partition.g, old(partition.Now()), old(H()))
              && ReadCall(partition.g, old(M()), len, n, buffer, M())
      ensures Content() == old(Content())
    {
      hide ByteOffset, Geometry.Valid, Cache.Valid, Cache.Touched, FatEntries.Links, WellFormed, Raw, FileRaw, StandsAt;
      n, buffer := 0, [];
      if len == 0 { return; }
      if !inUse || !read { return -1, buffer; }
      if currentPosition >= filesize || startCluster == CLUSTER_FREE { return; }
      var wanted := len;
      if len + currentPosition > filesize { wanted := filesize - currentPosition; }
      ghost var f, t, h, off := H(), partition.Now(), startCluster, currentPosition;
      ChainUsable(partition.g, t, h);
      ghost var k :| StandsAt(partition.g, partition.chains[h], k, rwPosition, off);
      BeginRead(partition.g, t, f, k, wanted);
      var position;
      position, buffer, k := ReadData(wanted, h, k, off);
      EndRead(partition.g, t, f, wanted, position, k);
      rwPosition := position;
      currentPosition := currentPosition + wanted;
      n := wanted;
    }

    // ---- seeking ----

    /** The walk of a seek: clusCount links on from `from`, the i-th cluster of the chain. */
    method Walk(from: nat, clusCount: int, ghost i: nat) returns (cluster: nat, left: int)
      requires Valid() && startCluster in partition.chains && i < |partition.chains[startCluster]|
      requires && from == partition.chains[startCluster][i]
               && 0 <= clusCount
               && i + clusCount <= |partition.chains[startCluster]|
      modifies partition.cache.Repr()
      ensures partition.Valid() && partition.Now() == old(partition.Now())
      ensures left == if i + clusCount == |partition.chains[startCluster]| then 1 else 0
      ensures cluster == partition.chains[startCluster][i + clusCount - left]
    {
      hide ByteOffset, Geometry.Valid, Cache.Valid, Cache.Touched, FatEntries.Links, WellFormed, IsChain, ValidAt;
      GeometryBounds(partition.g);
      ghost var t, chain, k := partition.Now(), partition.chains[startCluster], i;
      ChainInRange(t.fs.links, t.fs.chains, startCluster);
      IndicesInRange(t.fs.links, chain);
      cluster, left := from, clusCount;
      LinkInChain(t.fs.links, chain, k);
      var nextCluster := partition.NextCluster(cluster);
      while left > 0 && nextCluster != CLUSTER_FREE && nextCluster != CLUSTER_EOF
        invariant partition.Valid() && partition.Now() == t
        invariant 0 <= left && k < |chain| && k + left == i + clusCount && cluster == chain[k]
        invariant nextCluster == if k == |chain| - 1 then CLUSTER_EOF else chain[k + 1]
        decreases left
      {
        assert k + 1 < |chain|;
        left, cluster := left - 1, nextCluster;
        k := k + 1;
        LinkInChain(t.fs.links, chain, k);
        nextCluster := partition.NextCluster(cluster);
      }
      assert k < |chain| - 1 ==> InRange(t.fs.links, chain[k + 1]);
    }

    /** A seek to a place inside the file, from the current cluster when that is not behind it. */
    method SeekInside(position: nat) returns (ok: bool)
      requires Valid() && CursorOk() && position <= filesize && startCluster != CLUSTER_FREE
      modifies this`rwPosition, partition.cache.Repr()
      ensures ok && partition.Valid() && partition.Now() == old(partition.Now())
      ensures startCluster in partition.chains && partition.chains[startCluster] != []
      ensures position <= Start(partition.g, |partition.chains[startCluster]|)
      ensures rwPosition == Landing(partition.g, partition.chains[startCluster], position)
    {
      hide ByteOffset, Geometry.Valid, Cache.Valid, Cache.Touched, FatEntries.Links, WellFormed, IsChain, Raw,
           StandsAt, FileRaw;
      var g := partition.g;
      ghost var t, chain := partition.Now(), partition.chains[startCluster];
      ChainUsable(g, t, startCluster);
      SplitOffset(g, position);
      LandingIndex(g, |chain|, position);
      var clusCount: int := position / g.BytesPerCluster();
      var cluster := startCluster;
      ghost var i := 0;
      if position >= currentPosition {
        ghost var k: nat :| StandsAt(g, chain, k, rwPosition, currentPosition);
        CurrentIndex(g, chain, k, rwPosition, currentPosition);
        NotBefore(g, currentPosition, position);
        var currentCount: int := currentPosition / g.BytesPerCluster();
        if rwPosition.sector == g.sectorsPerCluster { currentCount := currentCount - 1; }
        clusCount := clusCount - currentCount;
        cluster := rwPosition.cluster;
        i := k;
        StandsIn(g, chain, k, rwPosition, currentPosition);
      }
      rwPosition := FilePosition(rwPosition.cluster, position % g.BytesPerCluster() / g.bytesPerSector,
                                 position % g.bytesPerSector);
      var left;
      cluster, left := Walk(cluster, clusCount, i);
      if left > 0 {
        if left == 1 && filesize == position && rwPosition.sector == 0 {
          rwPosition := rwPosition.(sector := g.sectorsPerCluster, byte := 0);
        } else {
          assert false;
          return false;
        }
      }
      rwPosition := rwPosition.(cluster := cluster);
      ok := true;
    }

    /** _FAT_seek_r.  Inside the file the cursor lands where a walk from the first cluster would,
        wherever the walk really started; beyond the end only the position is noted. */
    method Seek(pos: int, dir: SeekDir) returns (r: int)
      requires Valid() && CursorOk()
      modifies this`rwPosition, this`currentPosition, partition.cache.Repr()
      ensures Valid() && CursorOk() && partition.Now() == old(partition.Now()) && Content() == old(Content())
      ensures var target := pos + (match dir
                                   case SEEK_SET => 0
                                   case SEEK_CUR => old(currentPosition)
                                   case SEEK_END => filesize);
              && SoundAt(partition.g, old(partition.Now()), old(H()))
              && SeekCall(partition.g, old(M()), target, r, M())
    {
      hide ByteOffset, Geometry.Valid, Cache.Valid, Cache.Touched, FatEntries.Links, WellFormed, IsChain, Raw,
           StandsAt, Landing, FileRaw;
      if !inUse { return -1; }
      var newPosition := match dir
        case SEEK_SET => pos
        case SEEK_CUR => currentPosition + pos
        case SEEK_END => filesize + pos;
      if newPosition < 0 || newPosition > FILE_MAX_SIZE { return -1; }
      var position: nat := newPosition;
      ghost var f := H();
      if position <= filesize && startCluster != CLUSTER_FREE {
        var ok := SeekInside(position);
        if !ok { return -1; }
      }
      currentPosition := position;
      r := position;
      SoughtCursor(partition.g, partition.Now(), f, H(), position);
    }

    // ---- resizing ----

    /** _FAT_ftruncate_r.  The content becomes its first `len` bytes, or itself with zeros behind it. */
    method Truncate(len: int) returns (ret: int)
      requires Valid() && (inUse && write && filesize < len <= FILE_MAX_SIZE ==> partition.HintOk())
      modifies this, partition.Repr()
      ensures partition.Valid()
      ensures SoundAt(partition.g, old(partition.Now()), old(H()))
              && TruncateCall(partition.g, old(M()), len, ret, M())
    {
      hide ByteOffset, Geometry.Valid, Cache.Valid, Cache.Touched, FatEntries.Links, WellFormed, FreeSet, Exactly,
           StandsAt, SnapOk, Room, Denotes, OthersKept, TruncateOutcome;
      if len < 0 || len > FILE_MAX_SIZE || !inUse || !write { return -1; }
      if len > filesize {
        var started;
        started, ret := Stretch(len);
        if !started { return; }
      } else if len < filesize {
        ret := 0;
        if len == 0 { CutToNothing(); } else { CutTo(len); }
      } else {
        ret := 0;
        ResizeToSame(partition.g, partition.Now(), H());
      }
      filesize := len;
      modified := true;
    }

    /** Expanding: a first cluster if there is none, zeros up to the new size, and the read/write
        cursor put back. */
    method Stretch(newSize: nat) returns (started: bool, ret: int)
      requires Valid() && partition.HintOk() && filesize < newSize <= FILE_MAX_SIZE
      modifies this`rwPosition, this`filesize, this`startCluster, this`currentPosition, this`appendPosition,
               partition.Repr()
      ensures partition.Valid() && (started || ret == -1)
      ensures !started <==> old(startCluster) == CLUSTER_FREE && old(FreeSet(partition.Links())) == {}
      ensures TruncateOutcome(partition.g, old(partition.Now()), old(H()), partition.Now(),
                              if started then H().(filesize := newSize) else H(), newSize, ret)
    {
      hide ByteOffset, Geometry.Valid, Cache.Valid, Cache.Touched, FatEntries.Links, WellFormed, FreeSet, Exactly,
           StandsAt, SnapOk, Room, Denotes, OthersKept, TruncateOutcome, FirstTaken, FileStep, HasFirst, ValidAt,
           SoundAt, GapFilled;
      ghost var s, f := partition.Now(), H();
      StartAndSize(partition.g, s, f);
      var ok;
      if startCluster == CLUSTER_FREE {
        ok := TakeFirst();
        if !ok {
          SnapIsOk();
          StretchRefused(partition.g, s, partition.Now(), f, newSize);
          return false, -1;
        }
      }
      ghost var s1, f1 := partition.Now(), H();
      assert HasFirst(partition.g, s, f, s1, f1) by { FirstIsThere(partition.g, s, f, s1, f1); }
      FirstGives(partition.g, s, f, s1, f1);
      ghost var pos;
      ok, pos := FillTo(newSize);
      ret := if ok then 0 else -1;
      started := true;
      GapFields(partition.g, s1, f1.(currentPosition := newSize), partition.Now(),
                H().(currentPosition := newSize, rwPosition := pos, appendPosition := f1.appendPosition), ok);
      if ok {
        GrowDone(partition.g, s, f, s1, f1, partition.Now(), H().(filesize := newSize), newSize, pos);
      } else {
        GrowFailed(partition.g, s, f, s1, f1, partition.Now(), H().(filesize := newSize), newSize);
      }
    }

    /** Zeros up to the new size, with the current position set there meanwhile; pos is where the
        cursor was then. */
    method FillTo(newSize: nat) returns (ok: bool, ghost pos: FilePosition)
      requires && partition.Valid()
               && startCluster in partition.chains
               && SizedRight()
               && partition.HintOk()
               && filesize < newSize
      modifies this`rwPosition, this`filesize, this`currentPosition, this`appendPosition, partition.Repr()
      ensures partition.Valid()
      ensures H() == old(H()).(filesize := filesize, appendPosition := if append then pos else old(appendPosition))
      ensures GapFilled(partition.g, old(partition.Now()), old(H()).(currentPosition := newSize), partition.Now(),
                        old(H()).(currentPosition := newSize, filesize := filesize, rwPosition := pos), ok)
    {
      hide ByteOffset, Geometry.Valid, Cache.Valid, Cache.Touched, FatEntries.Links, WellFormed, FreeSet, Exactly,
           StandsAt, SnapOk, Room, Denotes, GapFilled;
      ghost var s, f := partition.Now(), H().(currentPosition := newSize);
      var savedPosition, savedOffset := rwPosition, currentPosition;
      currentPosition := newSize;
      ok := FillGap();
      GapFields(partition.g, s, f, partition.Now(), H(), ok);
      pos := rwPosition;
      if append { appendPosition := rwPosition; }
      rwPosition, currentPosition := savedPosition, savedOffset;
    }

    /** Cutting the file down to nothing. */
    method CutToNothing()
      requires Valid() && filesize > 0
      modifies this`startCluster, this`appendPosition, partition.Repr()
      ensures partition.Valid()
      ensures TruncateOutcome(partition.g, old(partition.Now()), old(H()), partition.Now(), H().(filesize := 0), 0, 0)
    {
      hide ByteOffset, Geometry.Valid, Cache.Valid, Cache.Touched, FatEntries.Links, WellFormed, FreeSet, Exactly,
           StandsAt, SnapOk, Room, Denotes, OthersKept, TruncateOutcome;
      ghost var s, f := partition.Now(), H();
      SnapIsOk();
      StartAndSize(partition.g, s, f);
      ChainUsable(partition.g, s, startCluster);
      var ok := partition.ClearChain(startCluster);
      startCluster := CLUSTER_FREE;
      appendPosition := FilePosition(CLUSTER_FREE, 0, 0);
      SnapIsOk();
      ShrinkToNothing(partition.g, s, f, partition.Now(), H().(filesize := 0));
    }

    /** Puts the append cursor at the end of a file of newSize bytes. */
    method AppendAt(lastCluster: nat, newSize: nat)
      requires && partition.g.Valid()
               && partition.Mounted()
               && startCluster in partition.chains
               && partition.chains[startCluster] != []
      requires lastCluster == partition.chains[startCluster][|partition.chains[startCluster]| - 1]
      requires Exactly(partition.g, |partition.chains[startCluster]|, newSize) && 0 < newSize
      modifies this`appendPosition
      ensures Denotes(partition.g, partition.chains[startCluster], appendPosition, newSize)
    {
      hide ByteOffset, Geometry.Valid, Cache.Valid, Cache.Touched, FatEntries.Links, StandsAt, Exactly;
      var g := partition.g;
      SplitOffset(g, newSize);
      BpcPositive(g);
      var sector := newSize % g.BytesPerCluster() / g.bytesPerSector;
      EndOfFile(g, partition.chains[startCluster], newSize,
                FilePosition(lastCluster, sector, newSize % g.bytesPerSector));
      appendPosition := appendPosition.(byte := newSize % g.bytesPerSector);
      if newSize % g.BytesPerCluster() == 0 {
        appendPosition := appendPosition.(sector := g.sectorsPerCluster);
      } else {
        appendPosition := appendPosition.(sector := sector);
      }
      appendPosition := appendPosition.(cluster := lastCluster);
    }

    /** Trimming the file down to newSize bytes; a last cluster that would hold none goes too. */
    method CutTo(newSize: nat)
      requires Valid() && 0 < newSize < filesize
      modifies this`appendPosition, partition.Repr()
      ensures partition.Valid()
      ensures TruncateOutcome(partition.g, old(partition.Now()), old(H()), partition.Now(), H().(filesize := newSize),
                              newSize, 0)
    {
      hide ByteOffset, Geometry.Valid, Cache.Valid, Cache.Touched, FatEntries.Links, WellFormed, FreeSet, StandsAt,
           SnapOk, Room, OthersKept, TruncateOutcome, Exactly;
      var g := partition.g;
      ghost var s, f := partition.Now(), H();
      SnapIsOk();
      StartAndSize(g, s, f);
      ChainUsable(g, s, startCluster);
      ClustersFor(g, newSize);
      SplitOffset(g, newSize - 1);
      var chainLength: nat := (newSize - 1) / g.BytesPerCluster() + 1;
      FewerClusters(g, chainLength, newSize, |partition.chains[startCluster]|, filesize);
      var lastCluster := partition.TrimChain(startCluster, chainLength);
      SnapIsOk();
      if append { AppendAt(lastCluster, newSize); }
      ShrinkTo(g, s, f, partition.Now(), H().(filesize := newSize), newSize, chainLength);
    }
  }

  datatype SeekDir = SEEK_SET | SEEK_CUR | SEEK_END
}
