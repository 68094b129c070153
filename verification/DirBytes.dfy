/** Where the slots of a directory are: in the clusters of a chain, or in the fixed area of a 12- or
    16-bit root directory (source/directory.c). */
module DirBytes {
  import opened Bytes
  import opened Pages
  import opened Layout
  import opened Chains
  import opened Recency
  import opened Fat
  import opened FileBytes
  import opened FileSpec
  import opened Handles
  import opened Slots

  datatype DirPos = DirPos(cluster: nat, sector: nat, offset: int)

  /** A directory is known by its first cluster, 0 for the fixed root area. */
  ghost predicate DirOk(g: Geometry, s: Snap, dir: nat) {
    && SnapOk(g, s)
    && (|| dir in s.fs.chains
        || (dir == FAT16_ROOT_DIR_CLUSTER && g.filesysType != FS_FAT32 && g.rootDirStart < g.dataStart))
  }

  ghost function DirBytes(g: Geometry, s: Snap, dir: nat): (b: seq<byte>)
    requires DirOk(g, s, dir)
  {
    if dir in s.fs.chains then FileRaw(g, s, dir)
    else RootAreaFits(g); s.view[DataFrom(g)..ByteOffset(g.dataStart, g.bytesPerSector)]
  }

  /** Bytes cut into slots. */
  ghost function Cut32(b: seq<byte>): (d: seq<Slot>)
    ensures |d| == |b| / 32 && AllSlots(d) && forall i :: 0 <= i < |d| ==> d[i] == b[32 * i..32 * i + 32]
  {
    seq(|b| / 32, i requires 0 <= i < |b| / 32 => b[32 * i..32 * i + 32])
  }

  ghost function DirSlots(g: Geometry, s: Snap, dir: nat): (d: seq<Slot>)
    requires DirOk(g, s, dir)
    ensures AllSlots(d)
  {
    Cut32(DirBytes(g, s, dir))
  }

  function AsFile(pos: DirPos): FilePosition
    requires pos.offset >= 0
  {
    FilePosition(pos.cluster, pos.sector, 32 * pos.offset)
  }

  /** The position of slot i. */
  ghost predicate SlotAt(g: Geometry, s: Snap, dir: nat, i: nat, pos: DirPos) {
    && 0 <= pos.offset
    && if dir in s.fs.chains then
         pos.sector < g.sectorsPerCluster && Denotes(g, s.fs.chains[dir], AsFile(pos), 32 * i)
       else
         && pos.cluster == FAT16_ROOT_DIR_CLUSTER && pos.sector < g.dataStart - g.rootDirStart
         && 32 * pos.offset + 32 <= g.bytesPerSector
         && 32 * i == ByteOffset(pos.sector, g.bytesPerSector) + 32 * pos.offset
  }

  function Address(g: Geometry, pos: DirPos): nat
    requires pos.offset >= 0
  {
    ByteOffset(g.ClusterToSector(pos.cluster) + pos.sector, g.bytesPerSector) + 32 * pos.offset
  }

  // ---- sizes ----

  lemma SlotsPerSector(g: Geometry)
    requires g.Valid()
    ensures g.bytesPerSector == 32 * (g.bytesPerSector / 32) && g.bytesPerSector / 32 >= 16
  {
    GeometryBounds(g);
  }

  lemma OffsetBy32(x: nat, n: nat)
    ensures ByteOffset(x, 32 * n) == 32 * ByteOffset(x, n)
  {
    assert x * (32 * n) == 32 * (x * n);
  }

  lemma StartBy32(g: Geometry, m: nat)
    requires g.Valid()
    ensures Start(g, m) % 32 == 0
  {
    hide ByteOffset;
    SlotsPerSector(g);
    var n := g.bytesPerSector / 32;
    OffsetBy32(g.sectorsPerCluster, n);
    OffsetBy32(m, ByteOffset(g.sectorsPerCluster, n));
    ByThirtyTwo(ByteOffset(m, ByteOffset(g.sectorsPerCluster, n)));
  }

  lemma ByThirtyTwo(x: nat)
    ensures 32 * x % 32 == 0
  {
  }

  /** How many bytes the slots of a directory make. */
  lemma DirSize(g: Geometry, s: Snap, dir: nat)
    requires DirOk(g, s, dir)
    ensures 32 * |DirSlots(g, s, dir)| == |DirBytes(g, s, dir)|
    ensures dir in s.fs.chains ==> |DirBytes(g, s, dir)| == Start(g, |s.fs.chains[dir]|)
    ensures dir !in s.fs.chains ==> |DirBytes(g, s, dir)| == ByteOffset(g.dataStart - g.rootDirStart, g.bytesPerSector)
  {
    hide ByteOffset, Chains.WellFormed, Raw;
    GeometryBounds(g);
    if dir in s.fs.chains {
      ChainUsable(g, s, dir);
      StartBy32(g, |s.fs.chains[dir]|);
    } else {
      OffsetAdd(g.rootDirStart, g.dataStart - g.rootDirStart, g.bytesPerSector);
      SlotsPerSector(g);
      OffsetBy32(g.dataStart - g.rootDirStart, g.bytesPerSector / 32);
      RootAreaFits(g);
    }
  }

  // ---- reading and writing a slot ----

  /** The bytes of a chain directory at a position, on the volume. */
  lemma ChainPlace(g: Geometry, s: Snap, dir: nat, i: nat, pos: DirPos)
    requires DirOk(g, s, dir) && dir in s.fs.chains && SlotAt(g, s, dir, i, pos)
    ensures exists k :: StandsAt(g, s.fs.chains[dir], k, AsFile(pos), 32 * i)
    ensures forall k: nat :: StandsAt(g, s.fs.chains[dir], k, AsFile(pos), 32 * i) ==>
              var off := ByteOffset(pos.sector, g.bytesPerSector) + 32 * pos.offset;
              && k < |s.fs.chains[dir]| && s.fs.chains[dir][k] == pos.cluster && g.IsValidCluster(pos.cluster)
              && off + 32 <= g.BytesPerCluster() && Start(g, k) + off == 32 * i
              && Address(g, pos) == g.ClusterAddr(pos.cluster) + off
    ensures g.rootDirStart <= g.ClusterToSector(pos.cluster) + pos.sector < g.endOfPartition
    ensures 32 * pos.offset + 32 <= g.bytesPerSector
    ensures 32 * i + 32 <= Start(g, |s.fs.chains[dir]|)
  {
    hide ByteOffset, Geometry.Valid, Chains.WellFormed, Raw;
    var chain := s.fs.chains[dir];
    ChainUsable(g, s, dir);
    SlotsPerSector(g);
    GeometryBounds(g);
    var k0: nat :| StandsAt(g, chain, k0, AsFile(pos), 32 * i);
    PlaceInCluster(g, chain, k0, i, pos);
    ClusterPlace(g, pos.cluster);
    OffsetAdd(g.ClusterToSector(pos.cluster), pos.sector, g.bytesPerSector);
    forall k: nat | StandsAt(g, chain, k, AsFile(pos), 32 * i)
      ensures k == k0
    {
      AtUnique(g, chain, AsFile(pos), k, 32 * i, k0, 32 * i);
    }
  }

  lemma PlaceInCluster(g: Geometry, chain: seq<nat>, k: nat, i: nat, pos: DirPos)
    requires && g.Valid()
             && 0 <= pos.offset
             && StandsAt(g, chain, k, AsFile(pos), 32 * i)
             && pos.sector < g.sectorsPerCluster
    ensures 32 * pos.offset + 32 <= g.bytesPerSector
    ensures ByteOffset(pos.sector, g.bytesPerSector) + 32 * pos.offset + 32 <= g.BytesPerCluster()
    ensures 32 * i + 32 <= Start(g, |chain|)
  {
    hide ByteOffset, Geometry.Valid;
    SlotsPerSector(g);
    OffsetMono(pos.sector + 1, g.sectorsPerCluster, g.bytesPerSector);
    OffsetMono(pos.sector, pos.sector + 1, g.bytesPerSector);
    InsideCluster(g, chain, k, AsFile(pos), 32 * i);
  }

  /** The same for the root area. */
  lemma RootPlace(g: Geometry, s: Snap, dir: nat, i: nat, pos: DirPos)
    requires DirOk(g, s, dir) && dir !in s.fs.chains && SlotAt(g, s, dir, i, pos)
    ensures Address(g, pos) == DataFrom(g) + 32 * i
    ensures g.rootDirStart <= g.ClusterToSector(pos.cluster) + pos.sector < g.endOfPartition
    ensures DataFrom(g) + 32 * i + 32 <= ByteOffset(g.dataStart, g.bytesPerSector) <= |s.view|
  {
    hide ByteOffset, Chains.WellFormed;
    GeometryBounds(g);
    RootAreaFits(g);
    OffsetAdd(g.rootDirStart, pos.sector, g.bytesPerSector);
    OffsetMono(g.rootDirStart + pos.sector, g.dataStart, g.bytesPerSector);
    OffsetMono(g.rootDirStart + pos.sector + 1, g.dataStart, g.bytesPerSector);
  }

  /** What a read at the position of slot i delivers. */
  lemma SlotRead(g: Geometry, s: Snap, dir: nat, i: nat, pos: DirPos)
    requires DirOk(g, s, dir) && SlotAt(g, s, dir, i, pos)
    ensures g.rootDirStart <= g.ClusterToSector(pos.cluster) + pos.sector < g.endOfPartition && 0 <= pos.offset
    ensures 32 * pos.offset + 32 <= g.bytesPerSector && Address(g, pos) + 32 <= |s.view|
    ensures i < |DirSlots(g, s, dir)| && DirSlots(g, s, dir)[i] == s.view[Address(g, pos)..Address(g, pos) + 32]
  {
    hide ByteOffset, Geometry.Valid, Chains.WellFormed, Raw, StandsAt;
    DirSize(g, s, dir);
    if dir in s.fs.chains {
      ChainPlace(g, s, dir, i, pos);
      var k: nat :| StandsAt(g, s.fs.chains[dir], k, AsFile(pos), 32 * i);
      ChainUsable(g, s, dir);
      RawInCluster(g, s.view, s.fs.chains[dir], k, ByteOffset(pos.sector, g.bytesPerSector) + 32 * pos.offset, 32);
    } else {
      RootPlace(g, s, dir, i, pos);
      SliceOfSlice(s.view, DataFrom(g), ByteOffset(g.dataStart, g.bytesPerSector), 32 * i, 32 * i + 32);
    }
  }

  /** Nothing differs but bytes between the table and the first cluster. */
  ghost predicate OnlyRootArea(g: Geometry, v: seq<byte>, v': seq<byte>) {
    && SameSystem(g, v, v')
    && forall a: nat {:trigger v'[a]} :: ByteOffset(g.dataStart, g.bytesPerSector) <= a < |v| ==> v'[a] == v[a]
  }

  /** Everything but one directory is as it was. */
  ghost predicate DirKept(g: Geometry, s: Snap, t: Snap, dir: nat) {
    && DirOk(g, s, dir) && DirOk(g, t, dir)
    && t.fs.chains - {dir} == s.fs.chains - {dir} && (dir in s.fs.chains <==> dir in t.fs.chains)
    && (dir in s.fs.chains ==> s.fs.chains[dir] <= t.fs.chains[dir] && OutsideKept(g, s.view, t.view))
    && (dir !in s.fs.chains ==> OnlyRootArea(g, s.view, t.view))
    && (forall k :: k in s.fs.chains && k != dir ==> k in t.fs.chains && FileRaw(g, t, k) == FileRaw(g, s, k))
    && FreeCount(t.fs.links) + |ChainOf(t, dir)| == FreeCount(s.fs.links) + |ChainOf(s, dir)|
    && (s.fs.count == FreeCount(s.fs.links) ==> t.fs.count == FreeCount(t.fs.links))
  }

  /** The bytes a directory can have: the fixed area, or its own clusters and all free ones. */
  ghost function DirCapacity(g: Geometry, s: Snap, dir: nat): nat
    requires DirOk(g, s, dir)
  {
    if dir in s.fs.chains then Room(g, s.fs.links, |s.fs.chains[dir]|) else |DirBytes(g, s, dir)|
  }

  lemma CapacityKept(g: Geometry, s: Snap, t: Snap, dir: nat)
    requires DirKept(g, s, t, dir)
    ensures DirCapacity(g, t, dir) == DirCapacity(g, s, dir)
  {
    hide ByteOffset, Chains.WellFormed, Raw, FreeSet, FileRaw, OutsideKept;
    DirSize(g, s, dir);
    DirSize(g, t, dir);
  }

  /** A directory never has more slots than that, and has as many when nothing is free. */
  lemma CapacityBounds(g: Geometry, s: Snap, dir: nat)
    requires DirOk(g, s, dir)
    ensures 32 * |DirSlots(g, s, dir)| <= DirCapacity(g, s, dir)
    ensures dir !in s.fs.chains || FreeSet(s.fs.links) == {} ==> 32 * |DirSlots(g, s, dir)| == DirCapacity(g, s, dir)
  {
    hide ByteOffset, Chains.WellFormed, Raw, FileRaw, FreeSet;
    DirSize(g, s, dir);
    if dir in s.fs.chains {
      OffsetMono(|s.fs.chains[dir]|, FreeCount(s.fs.links) + |s.fs.chains[dir]|, g.BytesPerCluster());
    }
  }

  lemma DirKeptTrans(g: Geometry, s: Snap, t: Snap, u: Snap, dir: nat)
    requires DirKept(g, s, t, dir) && DirKept(g, t, u, dir)
    ensures DirKept(g, s, u, dir)
  {
    hide ByteOffset, Chains.WellFormed, Raw;
  }

  lemma DirKeptRefl(g: Geometry, s: Snap, dir: nat)
    requires DirOk(g, s, dir)
    ensures DirKept(g, s, s, dir)
  {
    hide ByteOffset, Chains.WellFormed, Raw;
    RootAreaFits(g);
  }

  /** A chain whose clusters lie where nothing changed. */
  lemma RawAgrees(g: Geometry, v: seq<byte>, v': seq<byte>, chain: seq<nat>)
    requires Usable(g, v, chain) && Usable(g, v', chain)
    requires forall a: nat :: ByteOffset(g.dataStart, g.bytesPerSector) <= a < |v| ==> v'[a] == v[a]
    ensures Raw(g, v', chain) == Raw(g, v, chain)
  {
    hide ByteOffset, Geometry.Valid, Raw;
    forall i | 0 <= i < Start(g, |chain|) ensures Raw(g, v', chain)[i] == Raw(g, v, chain)[i] {
      var q, j := Locate(g, |chain|, i);
      RawAt(g, v, chain, q, j);
      RawAt(g, v', chain, q, j);
      ClusterPlace(g, chain[q]);
    }
  }

  lemma CutSplice(b: seq<byte>, i: nat, d: Slot)
    requires |d| == 32 && 32 * i + 32 <= |b|
    ensures i < |b| / 32 && Cut32(Splice(b, 32 * i, d)) == Cut32(b)[i := d]
  {
    var c, e := Cut32(Splice(b, 32 * i, d)), Cut32(b)[i := d];
    forall k | 0 <= k < |c| ensures c[k] == e[k] {
      if k != i { SpliceSlice(b, 32 * i, d, 32 * k, 32 * k + 32); }
    }
  }

  /** Writing at the position of slot i changes that slot and nothing else anywhere. */
  lemma SlotWrite(g: Geometry, s: Snap, t: Snap, dir: nat, i: nat, pos: DirPos, d: Slot)
    requires DirOk(g, s, dir) && SlotAt(g, s, dir, i, pos) && |d| == 32 && t.fs == s.fs
    requires Address(g, pos) + 32 <= |s.view| && t.view == Splice(s.view, Address(g, pos), d)
    ensures DirKept(g, s, t, dir)
    ensures i < |DirSlots(g, s, dir)| && DirSlots(g, t, dir) == DirSlots(g, s, dir)[i := d]
  {
    if dir in s.fs.chains {
      ChainWrite(g, s, t, dir, i, pos, d);
    } else {
      RootWrite(g, s, t, dir, i, pos, d);
    }
  }

  lemma ChainWrite(g: Geometry, s: Snap, t: Snap, dir: nat, i: nat, pos: DirPos, d: Slot)
    requires DirOk(g, s, dir) && dir in s.fs.chains && SlotAt(g, s, dir, i, pos) && |d| == 32 && t.fs == s.fs
    requires Address(g, pos) + 32 <= |s.view| && t.view == Splice(s.view, Address(g, pos), d)
    ensures DirKept(g, s, t, dir)
    ensures i < |DirSlots(g, s, dir)| && DirSlots(g, t, dir) == DirSlots(g, s, dir)[i := d]
  {
    hide ByteOffset, Geometry.Valid, Chains.WellFormed, Raw, StandsAt, OthersKept;
    var chain := s.fs.chains[dir];
    ChainPlace(g, s, dir, i, pos);
    var k: nat :| StandsAt(g, chain, k, AsFile(pos), 32 * i);
    ChainUsable(g, s, dir);
    ChainUsable(g, t, dir);
    var off := ByteOffset(pos.sector, g.bytesPerSector) + 32 * pos.offset;
    OffsetMono(0, 1, g.BytesPerCluster());
    assert SideBySide(chain, k, 1);
    RawWrite(g, s.view, chain, k, 1, off, d);
    WriteOnlyIn(g, s.view, chain, k, 1, off, d);
    DirSize(g, s, dir);
    CutSplice(DirBytes(g, s, dir), i, d);
    GrownRefl(s.fs, dir);
    RequestKeepsOthers(g, s, t, dir);
    OthersAreKept(g, s, t, dir);
  }

  lemma OthersAreKept(g: Geometry, s: Snap, t: Snap, dir: nat)
    requires && OthersKept(g, s, t, dir)
             && dir in s.fs.chains
             && dir in t.fs.chains
             && s.fs.chains[dir] <= t.fs.chains[dir]
    requires s.fs.count == FreeCount(s.fs.links) ==> t.fs.count == FreeCount(t.fs.links)
    requires FreeCount(t.fs.links) + |t.fs.chains[dir]| == FreeCount(s.fs.links) + |s.fs.chains[dir]|
    ensures DirKept(g, s, t, dir)
  {
    hide ByteOffset, Chains.WellFormed, Raw;
  }

  lemma RootWrite(g: Geometry, s: Snap, t: Snap, dir: nat, i: nat, pos: DirPos, d: Slot)
    requires DirOk(g, s, dir) && dir !in s.fs.chains && SlotAt(g, s, dir, i, pos) && |d| == 32 && t.fs == s.fs
    requires Address(g, pos) + 32 <= |s.view| && t.view == Splice(s.view, Address(g, pos), d)
    ensures DirKept(g, s, t, dir)
    ensures i < |DirSlots(g, s, dir)| && DirSlots(g, t, dir) == DirSlots(g, s, dir)[i := d]
  {
    hide ByteOffset, Geometry.Valid, Chains.WellFormed, Raw, FileRaw, Cut32, Splice, Address;
    RootPlace(g, s, dir, i, pos);
    RootKeepsFiles(g, s, t, Address(g, pos), d);
    RootSlots(g, s, t, dir, i, d);
  }

  lemma RootSlots(g: Geometry, s: Snap, t: Snap, dir: nat, i: nat, d: Slot)
    requires DirOk(g, s, dir) && DirOk(g, t, dir) && dir !in s.fs.chains && |d| == 32 && t.fs == s.fs
    requires DataFrom(g) + 32 * i + 32 <= ByteOffset(g.dataStart, g.bytesPerSector) <= |s.view|
    requires t.view == Splice(s.view, DataFrom(g) + 32 * i, d)
    ensures i < |DirSlots(g, s, dir)| && DirSlots(g, t, dir) == DirSlots(g, s, dir)[i := d]
  {
    hide ByteOffset, Geometry.Valid, Chains.WellFormed, Raw, FileRaw, Cut32;
    var from, to := DataFrom(g), ByteOffset(g.dataStart, g.bytesPerSector);
    SpliceWithin(s.view, from + 32 * i, d, from, to);
    CutSplice(DirBytes(g, s, dir), i, d);
  }

  lemma RootKeepsFiles(g: Geometry, s: Snap, t: Snap, at: nat, d: seq<byte>)
    requires SnapOk(g, s) && t.fs == s.fs && at + |d| <= ByteOffset(g.dataStart, g.bytesPerSector) <= |s.view|
    requires t.view == Splice(s.view, at, d)
    ensures SnapOk(g, t) && forall k :: k in s.fs.chains ==> FileRaw(g, t, k) == FileRaw(g, s, k)
  {
    hide ByteOffset, Geometry.Valid, Chains.WellFormed, Raw;
    forall k | k in s.fs.chains ensures FileRaw(g, t, k) == FileRaw(g, s, k) {
      ChainUsable(g, s, k);
      ChainUsable(g, t, k);
      RawAgrees(g, s.view, t.view, s.fs.chains[k]);
    }
  }

  // ---- from one position to the next ----

  /** A position before the first slot or at a slot. */
  ghost predicate PosAt(g: Geometry, s: Snap, dir: nat, i: int, pos: DirPos) {
    if i < 0 then i == -1 && pos == DirPos(dir, 0, -1) else SlotAt(g, s, dir, i, pos)
  }

  lemma FirstSlot(g: Geometry, s: Snap, dir: nat)
    requires DirOk(g, s, dir)
    ensures SlotAt(g, s, dir, 0, DirPos(dir, 0, 0))
  {
    hide ByteOffset, Chains.WellFormed;
    GeometryBounds(g);
    OffsetMono(0, 0, g.bytesPerSector);
    OffsetMono(0, 0, g.BytesPerCluster());
    if dir in s.fs.chains {
      ChainUsable(g, s, dir);
      assert StandsAt(g, s.fs.chains[dir], 0, FilePosition(dir, 0, 0), 0);
    } else {
      NoChainAtFree(g, s);
    }
  }

  lemma NextOffset(g: Geometry, s: Snap, dir: nat, i: nat, pos: DirPos)
    requires DirOk(g, s, dir) && SlotAt(g, s, dir, i, pos)
    ensures pos.offset + 1 <= g.bytesPerSector / 32
    ensures pos.offset + 1 < g.bytesPerSector / 32 ==> SlotAt(g, s, dir, i + 1, pos.(offset := pos.offset + 1))
  {
    hide ByteOffset, Chains.WellFormed;
    SlotsPerSector(g);
    SlotRead(g, s, dir, i, pos);
    if dir in s.fs.chains {
      var k: nat :| StandsAt(g, s.fs.chains[dir], k, AsFile(pos), 32 * i);
      var next := pos.(offset := pos.offset + 1);
      assert pos.offset + 1 < g.bytesPerSector / 32 ==> StandsAt(g, s.fs.chains[dir], k, AsFile(next), 32 * (i + 1));
    }
  }

  /** Behind the last slot of a sector. */
  lemma NextSector(g: Geometry, s: Snap, dir: nat, i: nat, pos: DirPos)
    requires DirOk(g, s, dir) && SlotAt(g, s, dir, i, pos) && pos.offset + 1 == g.bytesPerSector / 32
    ensures dir in s.fs.chains && pos.sector + 1 < g.sectorsPerCluster ==>
              SlotAt(g, s, dir, i + 1, DirPos(pos.cluster, pos.sector + 1, 0))
    ensures dir !in s.fs.chains && pos.sector + 1 < g.dataStart - g.rootDirStart ==>
              SlotAt(g, s, dir, i + 1, DirPos(pos.cluster, pos.sector + 1, 0))
    ensures dir !in s.fs.chains && pos.sector + 1 >= g.dataStart - g.rootDirStart ==>
              pos.sector + 1 == g.dataStart - g.rootDirStart && i + 1 == |DirSlots(g, s, dir)|
    ensures dir in s.fs.chains ==> pos.sector < g.sectorsPerCluster && pos.cluster != FAT16_ROOT_DIR_CLUSTER
    ensures dir !in s.fs.chains ==> pos.cluster == FAT16_ROOT_DIR_CLUSTER
  {
    hide ByteOffset, Chains.WellFormed;
    SlotsPerSector(g);
    OffsetMono(pos.sector, 0, g.bytesPerSector);
    DirSize(g, s, dir);
    if dir in s.fs.chains {
      ChainPlace(g, s, dir, i, pos);
      var k: nat :| StandsAt(g, s.fs.chains[dir], k, AsFile(pos), 32 * i);
      if pos.sector + 1 < g.sectorsPerCluster {
        assert StandsAt(g, s.fs.chains[dir], k, FilePosition(pos.cluster, pos.sector + 1, 0), 32 * (i + 1));
      }
    }
  }

  /** Behind the last slot of a cluster, the k-th of the chain. */
  lemma NextCluster(g: Geometry, s: Snap, dir: nat, i: nat, pos: DirPos) returns (k: nat)
    requires DirOk(g, s, dir) && dir in s.fs.chains && SlotAt(g, s, dir, i, pos)
    requires pos.offset + 1 == g.bytesPerSector / 32 && pos.sector + 1 == g.sectorsPerCluster
    ensures k < |s.fs.chains[dir]| && pos.cluster == s.fs.chains[dir][k] && 32 * (i + 1) == Start(g, k + 1)
    ensures k + 1 < |s.fs.chains[dir]| ==>
              SlotAt(g, s, dir, i + 1, DirPos(s.fs.chains[dir][k + 1], 0, 0)) && i + 1 < |DirSlots(g, s, dir)|
    ensures k + 1 == |s.fs.chains[dir]| ==> i + 1 == |DirSlots(g, s, dir)|
  {
    hide ByteOffset, Chains.WellFormed, Raw;
    SlotsPerSector(g);
    OffsetMono(pos.sector, 0, g.bytesPerSector);
    ChainPlace(g, s, dir, i, pos);
    k :| StandsAt(g, s.fs.chains[dir], k, AsFile(pos), 32 * i);
    var due := FilePosition(pos.cluster, g.sectorsPerCluster, 0);
    assert StandsAt(g, s.fs.chains[dir], k, due, 32 * (i + 1));
    DueIsNextStart(g, s.fs.chains[dir], k, due, 32 * (i + 1));
    DirSize(g, s, dir);
    if k + 1 < |s.fs.chains[dir]| {
      GeometryBounds(g);
      BpcPositive(g);
      OffsetMono(k + 2, |s.fs.chains[dir]|, g.BytesPerCluster());
      OffsetMono(k + 1, 0, g.BytesPerCluster());
      assert StandsAt(g, s.fs.chains[dir], k + 1, FilePosition(s.fs.chains[dir][k + 1], 0, 0), 32 * (i + 1));
    }
  }

  // ---- a directory one cluster longer ----

  function Blanks(n: nat): (d: seq<Slot>)
    ensures |d| == n && forall i :: 0 <= i < n ==> d[i] == Zeros(32)
  {
    seq(n, i => Zeros(32))
  }

  lemma CutJoin(b: seq<byte>, n: nat)
    requires |b| % 32 == 0
    ensures Cut32(b + Zeros(32 * n)) == Cut32(b) + Blanks(n)
  {
    var c, e := Cut32(b + Zeros(32 * n)), Cut32(b) + Blanks(n);
    assert |b| == 32 * (|b| / 32);
    forall k | 0 <= k < |c| ensures c[k] == e[k] {
      if k < |b| / 32 {
        assert (b + Zeros(32 * n))[32 * k..32 * k + 32] == b[32 * k..32 * k + 32];
      } else {
        assert (b + Zeros(32 * n))[32 * k..32 * k + 32] == Zeros(32);
      }
    }
  }

  lemma ExtendedDir(g: Geometry, s: Snap, t: Snap, dir: nat, c: nat, v: seq<byte>)
    requires DirOk(g, s, dir) && SnapOk(g, t) && Grown(s.fs, t.fs, dir) && t.fs.chains[dir] == s.fs.chains[dir] + [c]
    requires && SameData(g, s.view, v)
             && ClusterFits(g, v, c)
             && t.view == Splice(v, g.ClusterAddr(c), Zeros(g.BytesPerCluster()))
    ensures DirKept(g, s, t, dir)
    ensures g.BytesPerCluster() % 32 == 0 && 0 < g.BytesPerCluster() / 32
    ensures DirSlots(g, t, dir) == DirSlots(g, s, dir) + Blanks(g.BytesPerCluster() / 32)
  {
    hide ByteOffset, Geometry.Valid, Chains.WellFormed, Raw, Grown, OthersKept;
    GrownPrefix(s.fs, t.fs, dir);
    var chain, chain', bpc := s.fs.chains[dir], t.fs.chains[dir], g.BytesPerCluster();
    ChainUsable(g, s, dir);
    ChainUsable(g, t, dir);
    ZeroedTail(g, s.view, v, chain, c);
    StartBy32(g, 1);
    OffsetMono(0, 1, bpc);
    BpcPositive(g);
    SlotsPerSector(g);
    DirSize(g, s, dir);
    CutJoin(DirBytes(g, s, dir), bpc / 32);
    RequestKeepsOthers(g, s, t, dir);
    GrownCounts(s.fs, t.fs, dir);
    OthersAreKept(g, s, t, dir);
  }

  lemma GrownCounts(s: FatState, t: FatState, h: nat)
    requires Grown(s, t, h)
    ensures s.count == FreeCount(s.links) ==> t.count == FreeCount(t.links)
    ensures h in s.chains && h in t.chains && FreeCount(t.links) + |t.chains[h]| == FreeCount(s.links) + |s.chains[h]|
  {
  }

  /** A cluster of zeros at the end of a chain. */
  lemma ZeroedTail(g: Geometry, view: seq<byte>, v: seq<byte>, chain: seq<nat>, c: nat)
    requires Usable(g, view, chain) && Usable(g, v, chain + [c]) && Distinct(chain + [c]) && SameData(g, view, v)
    requires ClusterFits(g, v, c)
    ensures var u := Splice(v, g.ClusterAddr(c), Zeros(g.BytesPerCluster()));
            && Usable(g, u, chain + [c]) && Raw(g, u, chain + [c]) == Raw(g, view, chain) + Zeros(g.BytesPerCluster())
            && OnlyIn(g, view, u, chain + [c])
  {
    hide ByteOffset, Geometry.Valid, Raw, OnlyIn, SameSystem, Splice;
    var chain', k, bpc := chain + [c], |chain|, g.BytesPerCluster();
    var u := Splice(v, g.ClusterAddr(c), Zeros(bpc));
    OffsetMono(0, 1, bpc);
    assert SideBySide(chain', k, 1);
    RawWrite(g, v, chain', k, 1, 0, Zeros(bpc));
    WriteOnlyIn(g, v, chain', k, 1, 0, Zeros(bpc));
    RawPush(g, v, chain, c);
    RawSameData(g, view, v, chain);
    OnlyInTrans(g, view, v, u, chain, chain');
    SpliceTail(Raw(g, v, chain), ClusterBytes(g, v, c), Zeros(bpc));
  }

  lemma SpliceTail(a: seq<byte>, b: seq<byte>, d: seq<byte>)
    requires |b| == |d|
    ensures Splice(a + b, |a|, d) == a + d
  {
  }

  /** A slot has one position, and a position is of one slot. */
  lemma OnePosition(g: Geometry, s: Snap, dir: nat, i: nat, p: DirPos, j: nat, q: DirPos)
    requires DirOk(g, s, dir) && SlotAt(g, s, dir, i, p) && SlotAt(g, s, dir, j, q)
    ensures i == j <==> p == q
  {
    hide ByteOffset, Geometry.Valid, Chains.WellFormed, Raw, StandsAt;
    SlotRead(g, s, dir, i, p);
    SlotRead(g, s, dir, j, q);
    if dir in s.fs.chains {
      ChainPlace(g, s, dir, i, p);
      ChainPlace(g, s, dir, j, q);
      var k: nat :| StandsAt(g, s.fs.chains[dir], k, AsFile(p), 32 * i);
      var m: nat :| StandsAt(g, s.fs.chains[dir], m, AsFile(q), 32 * j);
      ChainUsable(g, s, dir);
      if p == q { AtUnique(g, s.fs.chains[dir], AsFile(p), k, 32 * i, m, 32 * j); }
      if i == j { SameIndex(g, k, p, m, q); }
    } else {
      if i == j { SameSector(g.bytesPerSector, p.sector, 32 * p.offset, q.sector, 32 * q.offset); }
    }
  }

  lemma SameSector(m: nat, a: nat, x: nat, b: nat, y: nat)
    requires x < m && y < m && ByteOffset(a, m) + x == ByteOffset(b, m) + y
    ensures a == b && x == y
  {
    hide ByteOffset;
    OffsetMono(a + 1, b, m);
    OffsetMono(b + 1, a, m);
    OffsetMono(a, a + 1, m);
    OffsetMono(b, b + 1, m);
  }

  lemma SameIndex(g: Geometry, k: nat, p: DirPos, m: nat, q: DirPos)
    requires && 0 <= p.offset
             && 0 <= q.offset
             && 32 * p.offset + 32 <= g.bytesPerSector
             && 32 * q.offset + 32 <= g.bytesPerSector
    requires ByteOffset(p.sector, g.bytesPerSector) + 32 * p.offset + 32 <= g.BytesPerCluster()
    requires ByteOffset(q.sector, g.bytesPerSector) + 32 * q.offset + 32 <= g.BytesPerCluster()
    requires Start(g, k) + (ByteOffset(p.sector, g.bytesPerSector) + 32 * p.offset)
             == Start(g, m) + (ByteOffset(q.sector, g.bytesPerSector) + 32 * q.offset)
    ensures k == m && p.sector == q.sector && p.offset == q.offset
  {
    hide ByteOffset;
    SameSector(g.BytesPerCluster(), k, ByteOffset(p.sector, g.bytesPerSector) + 32 * p.offset, m,
               ByteOffset(q.sector, g.bytesPerSector) + 32 * q.offset);
    SameSector(g.bytesPerSector, p.sector, 32 * p.offset, q.sector, 32 * q.offset);
  }
}
