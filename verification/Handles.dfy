/** An open file as a value: its fields, its content, and what a write does to them. */
module Handles {
  import opened Bytes
  import opened Pages
  import opened Layout
  import opened Chains
  import opened Fat
  import opened FileBytes
  import opened FileSpec

  datatype Handle = Handle(filesize: nat, startCluster: nat, currentPosition: nat,
                           rwPosition: FilePosition, appendPosition: FilePosition, append: bool)
  {
    /** Where a write goes. */
    function WriteOffset(): nat {
      if append then filesize else currentPosition
    }

    /** How much of a request of len bytes the maximal file size leaves room for. */
    function Fitting(len: nat): (n: nat)
      requires filesize <= FILE_MAX_SIZE
      ensures n <= len && filesize + n <= FILE_MAX_SIZE && (n == len || filesize + n == 0xFFFF_FFFF)
    {
      if len + filesize > FILE_MAX_SIZE then FILE_MAX_SIZE - filesize else len
    }
  }

  /** The chain, if there is one, holds all bytes of the file. */
  ghost predicate SoundAt(g: Geometry, s: Snap, f: Handle) {
    && SnapOk(g, s) && f.filesize <= FILE_MAX_SIZE
    && (f.startCluster == CLUSTER_FREE || f.startCluster in s.fs.chains)
    && f.filesize <= Start(g, |ChainOf(s, f.startCluster)|)
  }

  /** Further, the chain has exactly the clusters the size asks for, and an append cursor
      stands at the end. */
  ghost predicate ValidAt(g: Geometry, s: Snap, f: Handle) {
    && SoundAt(g, s, f)
    && Exactly(g, |ChainOf(s, f.startCluster)|, f.filesize)
    && (f.append && f.startCluster != CLUSTER_FREE ==>
          Denotes(g, ChainOf(s, f.startCluster), f.appendPosition, f.filesize))
  }

  /** The read/write cursor stands at the current position, unless that is beyond the end. */
  ghost predicate CursorAt(g: Geometry, s: Snap, f: Handle) {
    f.startCluster != CLUSTER_FREE && f.currentPosition <= f.filesize ==>
      Denotes(g, ChainOf(s, f.startCluster), f.rwPosition, f.currentPosition)
  }

  ghost function ContentAt(g: Geometry, s: Snap, f: Handle): (c: seq<byte>)
    requires SoundAt(g, s, f)
    ensures |c| == f.filesize
  {
    if f.startCluster in s.fs.chains then ChainUsable(g, s, f.startCluster); FileRaw(g, s, f.startCluster)[..f.filesize]
    else EmptyStart(g); []
  }

  lemma EmptyStart(g: Geometry)
    ensures Start(g, 0) == 0
  {
  }

  /** The handle once the file has its first cluster c, with both cursors at its start. */
  function Begun(f: Handle, c: nat): Handle {
    if f.startCluster == CLUSTER_FREE && c != CLUSTER_FREE then
      f.(startCluster := c, rwPosition := FilePosition(c, 0, 0), appendPosition := FilePosition(c, 0, 0))
    else f
  }

  /** The outcome of writing d, from (s, f) to (t, f'), with result n.  An append leaves position
      and read/write cursor alone; a write that could not fill its gap, all but the first cluster. */
  ghost predicate WriteOutcome(g: Geometry, s: Snap, f: Handle, t: Snap, f': Handle, d: seq<byte>, n: int)
    requires SoundAt(g, s, f)
  {
    && SoundAt(g, t, f') && OthersKept(g, s, t, f'.startCluster) && f'.append == f.append
    && (f.startCluster != CLUSTER_FREE ==> f'.startCluster == f.startCluster)
    && (f.startCluster == CLUSTER_FREE ==> f'.startCluster !in s.fs.chains)
    && ChainOf(s, f.startCluster) <= ChainOf(t, f'.startCluster)
    && -1 <= n <= |d|
    && (n == |d| <==> f.WriteOffset() + |d| <= Room(g, s.fs.links, |ChainOf(s, f.startCluster)|))
    && (n < |d| ==> FreeSet(t.fs.links) == {})
    && (n == |d| ==> !Phantom(t.fs.links, t.fs.hint))
    && Room(g, t.fs.links, |ChainOf(t, f'.startCluster)|) == Room(g, s.fs.links, |ChainOf(s, f.startCluster)|)
    && (s.fs.count == FreeCount(s.fs.links) ==> t.fs.count == FreeCount(t.fs.links))
    && if n == -1 then
         f' == Begun(f, f'.startCluster) && ContentAt(g, t, f') == ContentAt(g, s, f)
       else
         && ValidAt(g, t, f')
         && ContentAt(g, t, f') == Overlay(ContentAt(g, s, f), f.WriteOffset(), d[..n])
         && f'.currentPosition == f.currentPosition + (if f.append then 0 else n)
         && (f.append ==> f'.rwPosition == Begun(f, f'.startCluster).rwPosition)
         && (!f.append ==> CursorAt(g, t, f'))
  }

  /** What the transfer of a write reports: its step on the file and the new cursors. */
  ghost predicate Transferred(g: Geometry, s: Snap, f: Handle, t: Snap, f': Handle, d: seq<byte>, n: int) {
    && SnapOk(g, s) && SnapOk(g, t) && f.startCluster in s.fs.chains && f.startCluster in t.fs.chains
    && f'.startCluster == f.startCluster && f'.append == f.append && -1 <= n <= |d|
    && (n >= 0 ==> FileStep(g, s, t, f.startCluster, f.filesize, f.WriteOffset(), d[..n]))
    && (n == -1 ==> exists z :: FileStep(g, s, t, f.startCluster, f.filesize, f.filesize, z))
    && (n == |d| <==> f.WriteOffset() + |d| <= Room(g, s.fs.links, |s.fs.chains[f.startCluster]|))
    && (n < |d| ==> FreeSet(t.fs.links) == {})
    && (n == |d| ==> !Phantom(t.fs.links, t.fs.hint))
    && (n == -1 ==> f' == f)
    && (n >= 0 ==> f'.filesize == Max(f.filesize, f.WriteOffset() + n))
    && (n >= 0 && f.append ==>
          && f'.currentPosition == f.currentPosition && f'.rwPosition == f.rwPosition
          && Denotes(g, t.fs.chains[f.startCluster], f'.appendPosition, f'.filesize))
    && (n >= 0 && !f.append ==>
          && f'.currentPosition == f.currentPosition + n && f'.appendPosition == f.appendPosition
          && Denotes(g, t.fs.chains[f.startCluster], f'.rwPosition, f'.currentPosition))
  }

  /** The zeros before the current position were written, or the disc was too full for them. */
  ghost predicate GapFilled(g: Geometry, s: Snap, f: Handle, t: Snap, f': Handle, ok: bool) {
    var h := f.startCluster;
    && h in s.fs.chains && h in t.fs.chains && f.filesize < f.currentPosition
    && f' == f.(filesize := f'.filesize, rwPosition := f'.rwPosition)
    && (ok <==> f.currentPosition <= Room(g, s.fs.links, |s.fs.chains[h]|))
    && Room(g, t.fs.links, |t.fs.chains[h]|) == Room(g, s.fs.links, |s.fs.chains[h]|)
    && if ok then
         && FileStep(g, s, t, h, f.filesize, f.filesize, Zeros(f.currentPosition - f.filesize))
         && f'.filesize == f.currentPosition && Exactly(g, |t.fs.chains[h]|, f'.filesize)
         && Denotes(g, t.fs.chains[h], f'.rwPosition, f.currentPosition) && !Phantom(t.fs.links, t.fs.hint)
       else
         f' == f && FreeSet(t.fs.links) == {} && exists z :: FileStep(g, s, t, h, f.filesize, f.filesize, z)
  }

  /** The handle after n bytes went through, with the cursor at `pos`. */
  function Advanced(f: Handle, n: nat, pos: FilePosition): Handle {
    if f.append then f.(appendPosition := pos, filesize := f.filesize + n)
    else f.(rwPosition := pos, currentPosition := f.currentPosition + n,
            filesize := Max(f.filesize, f.currentPosition + n))
  }

  lemma TransferDone(g: Geometry, s: Snap, f: Handle, t: Snap, d: seq<byte>, n: nat, pos: FilePosition)
    requires SnapOk(g, s) && SnapOk(g, t) && f.startCluster in s.fs.chains && f.startCluster in t.fs.chains && n <= |d|
    requires FileStep(g, s, t, f.startCluster, f.filesize, f.WriteOffset(), d[..n])
    requires Denotes(g, t.fs.chains[f.startCluster], pos, f.WriteOffset() + n)
    requires n == |d| <==> f.WriteOffset() + |d| <= Room(g, s.fs.links, |s.fs.chains[f.startCluster]|)
    requires n < |d| ==> FreeSet(t.fs.links) == {}
    requires n == |d| ==> !Phantom(t.fs.links, t.fs.hint)
    ensures Transferred(g, s, f, t, Advanced(f, n, pos), d, n)
  {
    hide FileStep, Room, SnapOk, Denotes, FreeSet;
  }

  lemma TransferFailed(g: Geometry, s: Snap, f: Handle, t: Snap, d: seq<byte>)
    requires SnapOk(g, s) && SnapOk(g, t) && f.startCluster in s.fs.chains && f.startCluster in t.fs.chains
    requires exists z :: FileStep(g, s, t, f.startCluster, f.filesize, f.filesize, z)
    requires f.WriteOffset() + |d| > Room(g, s.fs.links, |s.fs.chains[f.startCluster]|)
    requires FreeSet(t.fs.links) == {}
    ensures Transferred(g, s, f, t, f, d, -1)
  {
    hide FileStep, Room, SnapOk, Denotes, FreeSet;
  }

  /** A write to a file that has clusters already. */
  lemma WriteToChain(g: Geometry, s: Snap, f: Handle, t: Snap, f': Handle, d: seq<byte>, n: int)
    requires ValidAt(g, s, f) && f.startCluster != CLUSTER_FREE && d != []
    requires Transferred(g, s, f, t, f', d, n) && f'.filesize <= FILE_MAX_SIZE
    ensures WriteOutcome(g, s, f, t, f', d, n)
  {
    hide ByteOffset, WellFormed, FreeSet, Raw, Overlay, StandsAt, OthersKept, Exactly, SnapOk, Room;
    if n == -1 {
      var z :| FileStep(g, s, t, f.startCluster, f.filesize, f.filesize, z);
      BehindTheEnd(g, s, t, f.startCluster, f.filesize, z);
      StepFacts(g, s, t, f.startCluster, f.filesize, f.filesize, z);
    } else {
      StepFacts(g, s, t, f.startCluster, f.filesize, f.WriteOffset(), d[..n]);
    }
  }

  lemma StepFacts(g: Geometry, s: Snap, t: Snap, h: nat, size: nat, at: nat, d: seq<byte>)
    requires FileStep(g, s, t, h, size, at, d)
    ensures OthersKept(g, s, t, h) && SnapOk(g, t) && h in t.fs.chains
    ensures Max(size, at + |d|) <= Start(g, |t.fs.chains[h]|) == |FileRaw(g, t, h)|
    ensures FileRaw(g, t, h)[..Max(size, at + |d|)] == Overlay(FileRaw(g, s, h)[..size], at, d)
    ensures Exactly(g, |t.fs.chains[h]|, Max(size, at + |d|)) && s.fs.chains[h] <= t.fs.chains[h]
    ensures Room(g, t.fs.links, |t.fs.chains[h]|) == Room(g, s.fs.links, |s.fs.chains[h]|)
    ensures s.fs.count == FreeCount(s.fs.links) ==> t.fs.count == FreeCount(t.fs.links)
  {
    ChainUsable(g, t, h);
  }

  /** A write to an empty file: s before, s1 after its first cluster was taken. */
  lemma WriteToEmpty(g: Geometry, s: Snap, f: Handle, s1: Snap, f1: Handle, t: Snap, f': Handle, d: seq<byte>, n: int)
    requires ValidAt(g, s, f) && f.startCluster == CLUSTER_FREE && d != []
    requires FirstTaken(g, s, s1, f1.startCluster)
    requires f1
             == f.(startCluster := f1.startCluster, rwPosition := FilePosition(f1.startCluster, 0, 0),
                   appendPosition := FilePosition(f1.startCluster, 0, 0))
    requires f1.filesize == 0 && StandsAt(g, s1.fs.chains[f1.startCluster], 0, f1.rwPosition, 0)
    requires Transferred(g, s1, f1, t, f', d, n) && f'.filesize <= FILE_MAX_SIZE
    ensures WriteOutcome(g, s, f, t, f', d, n)
  {
    hide ByteOffset, WellFormed, FreeSet, Raw, Overlay, StandsAt, OthersKept, Exactly, SnapOk, Room;
    var h := f1.startCluster;
    NoChainAtFree(g, s);
    NoChainAtFree(g, s1);
    FirstKeepsOthers(g, s, s1, h);
    if n == -1 {
      var z :| FileStep(g, s1, t, h, 0, 0, z);
      StepFacts(g, s1, t, h, 0, 0, z);
      OthersKeptTrans(g, s, s1, t, h);
    } else {
      StepFacts(g, s1, t, h, 0, f.WriteOffset(), d[..n]);
      OthersKeptTrans(g, s, s1, t, h);
      assert FileRaw(g, s1, h)[..0] == [] == ContentAt(g, s, f);
    }
  }

  /** The pseudo cluster 0 heads no chain. */
  lemma NoChainAtFree(g: Geometry, s: Snap)
    requires SnapOk(g, s)
    ensures CLUSTER_FREE !in s.fs.chains
  {
    if CLUSTER_FREE in s.fs.chains {
      ChainUsable(g, s, CLUSTER_FREE);
    }
  }

  lemma OthersKeptRefl(g: Geometry, s: Snap, h: nat)
    requires SnapOk(g, s)
    ensures OthersKept(g, s, s, h)
  {
    hide ByteOffset, WellFormed;
    RootAreaFits(g);
  }

  /** No cluster at all was to be had. */
  lemma WriteRefused(g: Geometry, s: Snap, t: Snap, f: Handle, d: seq<byte>)
    requires ValidAt(g, s, f) && f.startCluster == CLUSTER_FREE && d != [] && SnapOk(g, t)
    requires t.fs.links == s.fs.links && t.fs.chains == s.fs.chains && t.view == s.view && t.fs.count == s.fs.count
    requires FreeSet(s.fs.links) == {}
    ensures WriteOutcome(g, s, f, t, f, d, -1)
  {
    hide ByteOffset, WellFormed, Raw, Overlay, StandsAt, Exactly;
    NoChainAtFree(g, s);
    EmptyStart(g);
    assert FreeCount(s.fs.links) == 0;
    assert Room(g, s.fs.links, 0) == 0 by { EmptyStart(g); }
    SameVolume(g, s, t);
  }

  /** Only the hint differs. */
  lemma SameVolume(g: Geometry, s: Snap, t: Snap)
    requires SnapOk(g, s) && SnapOk(g, t)
    requires t.fs.links == s.fs.links && t.fs.chains == s.fs.chains && t.view == s.view
    ensures OthersKept(g, s, t, CLUSTER_FREE)
  {
    hide ByteOffset, WellFormed;
    RootAreaFits(g);
  }

  /** After a write whose gap could not be filled the file keeps what the filling took: it is as
      it should be exactly if there was nothing to take. */
  lemma AfterRefusal(g: Geometry, s: Snap, f: Handle, t: Snap, f': Handle, d: seq<byte>)
    requires ValidAt(g, s, f) && WriteOutcome(g, s, f, t, f', d, -1)
    ensures |ChainOf(t, f'.startCluster)| == |ChainOf(s, f.startCluster)| + FreeCount(s.fs.links)
    ensures ValidAt(g, t, f') <==> FreeSet(s.fs.links) == {}
  {
    hide ByteOffset, WellFormed, FreeSet, Raw, StandsAt, OthersKept;
    var m, m', free := |ChainOf(s, f.startCluster)|, |ChainOf(t, f'.startCluster)|, FreeCount(s.fs.links);
    assert |ContentAt(g, t, f')| == f.filesize;
    SameStart(g, m', m + free);
    NoChainAtFree(g, s);
    NoChainAtFree(g, t);
    if free > 0 {
      OffsetMono(m, m' - 1, g.BytesPerCluster());
    } else {
      assert ChainOf(t, f'.startCluster) == ChainOf(s, f.startCluster);
      if f'.startCluster != CLUSTER_FREE { ChainUsable(g, t, f'.startCluster); }
    }
  }

  // ---- reading ----

  /** How many of len bytes a read delivers. */
  function Wanted(f: Handle, len: nat): nat {
    if f.currentPosition >= f.filesize || f.startCluster == CLUSTER_FREE then 0
    else if len + f.currentPosition > f.filesize then f.filesize - f.currentPosition
    else len
  }

  /** The read starts with the cursor due behind a full cluster and takes less than a sector:
      the code does not move on to the next cluster of the chain before it reads. */
  predicate Misread(g: Geometry, f: Handle, len: nat) {
    0 < Wanted(f, len) < g.bytesPerSector && Due(g, f.rwPosition)
  }

  /** The bytes on the volume behind the cluster of a due cursor; behind the end of the partition
      there is nothing, and the buffer holds anything. */
  ghost predicate BehindCluster(g: Geometry, t: Snap, pos: FilePosition, buffer: seq<byte>) {
    var a := ByteOffset(g.ClusterToSector(pos.cluster) + pos.sector, g.bytesPerSector);
    a + |buffer| <= |t.view| ==> buffer == t.view[a..a + |buffer|]
  }

  /** What a read of more than nothing delivers. */
  ghost predicate ReadOutcome(g: Geometry, t: Snap, f: Handle, len: nat, buffer: seq<byte>)
    requires SoundAt(g, t, f)
  {
    if Misread(g, f, len) then BehindCluster(g, t, f.rwPosition, buffer)
    else
      IsNext(g, t, f, buffer)
  }

  /** The bytes of the file from the current position on. */
  ghost predicate IsNext(g: Geometry, t: Snap, f: Handle, buffer: seq<byte>)
    requires SoundAt(g, t, f)
  {
    && f.currentPosition + |buffer| <= f.filesize
    && buffer == ContentAt(g, t, f)[f.currentPosition..f.currentPosition + |buffer|]
  }

  ghost predicate ReadsRight(g: Geometry, t: Snap, f: Handle, len: nat)
    requires SoundAt(g, t, f)
  {
    forall buffer :: |buffer| == Wanted(f, len) && ReadOutcome(g, t, f, len, buffer) ==> IsNext(g, t, f, buffer)
  }

  /** The same table, any data. */
  ghost predicate SameTable(g: Geometry, v: seq<byte>, v': seq<byte>) {
    DataFrom(g) <= |v| == |v'| && v[..DataFrom(g)] == v'[..DataFrom(g)]
  }

  /** When a read is right, whatever the volume holds: unless it starts due and takes less than
      a sector; then only if the next cluster of the file happens to be the next on the disc. */
  lemma ReadRightExactly(g: Geometry, t: Snap, f: Handle, len: nat, k: nat)
    requires SoundAt(g, t, f) && f.startCluster in t.fs.chains && Wanted(f, len) > 0
    requires StandsAt(g, t.fs.chains[f.startCluster], k, f.rwPosition, f.currentPosition)
    ensures Misread(g, f, len) ==> k + 1 < |t.fs.chains[f.startCluster]|
    ensures (forall v :: SameTable(g, t.view, v) ==> ReadsRight(g, t.(view := v), f, len))
       <==> !Misread(g, f, len) || t.fs.chains[f.startCluster][k + 1] == t.fs.chains[f.startCluster][k] + 1
  {
    hide ByteOffset, WellFormed, Raw;
    if Misread(g, f, len) {
      var chain := t.fs.chains[f.startCluster];
      MisreadNext(g, t, f, len, k);
      if chain[k + 1] == chain[k] + 1 {
        forall v | SameTable(g, t.view, v) ensures ReadsRight(g, t.(view := v), f, len) {
          MisreadAdjacent(g, t.(view := v), f, len, k);
        }
      } else if g.ClusterToSector(f.rwPosition.cluster) + f.rwPosition.sector < g.endOfPartition {
        MisreadElsewhere(g, t, f, len, k);
      } else {
        MisreadNothing(g, t, f, len);
        assert SameTable(g, t.view, t.view) && t.(view := t.view) == t;
      }
    }
  }

  /** What is wanted is in the next cluster of the file; if that is the next one on the disc, it is
      there that the misread looks. */
  lemma MisreadNext(g: Geometry, t: Snap, f: Handle, len: nat, k: nat)
    requires SoundAt(g, t, f) && f.startCluster in t.fs.chains && Misread(g, f, len)
    requires StandsAt(g, t.fs.chains[f.startCluster], k, f.rwPosition, f.currentPosition)
    ensures DataFrom(g) <= |t.view| && k + 1 < |t.fs.chains[f.startCluster]|
    ensures t.fs.chains[f.startCluster][k + 1] == t.fs.chains[f.startCluster][k] + 1 ==>
              g.ClusterToSector(f.rwPosition.cluster) + f.rwPosition.sector < g.endOfPartition
  {
    hide ByteOffset, WellFormed, Raw, Geometry.Valid;
    var chain := t.fs.chains[f.startCluster];
    ChainUsable(g, t, f.startCluster);
    GeometryBounds(g);
    DueIsNextStart(g, chain, k, f.rwPosition, f.currentPosition);
    OffsetMono(|chain|, k + 1, g.BytesPerCluster());
    ClusterPlace(g, chain[k]);
    ClusterPlace(g, chain[k + 1]);
  }

  /** Behind the end of the partition anything may be delivered. */
  lemma MisreadNothing(g: Geometry, t: Snap, f: Handle, len: nat)
    requires SoundAt(g, t, f) && f.startCluster in t.fs.chains && Misread(g, f, len)
    requires g.ClusterToSector(f.rwPosition.cluster) + f.rwPosition.sector >= g.endOfPartition
    ensures !ReadsRight(g, t, f, len)
  {
    hide ByteOffset, WellFormed, Raw, ContentAt;
    OffsetMono(g.endOfPartition, g.ClusterToSector(f.rwPosition.cluster) + f.rwPosition.sector, g.bytesPerSector);
    var n, c := Wanted(f, len), ContentAt(g, t, f);
    var other: byte := if c[f.currentPosition] == 0 then 1 else 0;
    var buffer := [other] + Zeros(n - 1);
    FirstOfNext(g, t, f, buffer);
    assert ReadOutcome(g, t, f, len, buffer);
  }

  /** Where the misread takes its bytes and where they should come from. */
  lemma MisreadPlace(g: Geometry, t: Snap, f: Handle, len: nat, k: nat)
    requires SoundAt(g, t, f) && f.startCluster in t.fs.chains && Misread(g, f, len)
    requires StandsAt(g, t.fs.chains[f.startCluster], k, f.rwPosition, f.currentPosition)
    requires g.ClusterToSector(f.rwPosition.cluster) + f.rwPosition.sector < g.endOfPartition
    ensures k + 1 < |t.fs.chains[f.startCluster]| && f.currentPosition == Start(g, k + 1)
    ensures f.currentPosition + Wanted(f, len) <= f.filesize <= Start(g, |t.fs.chains[f.startCluster]|)
    ensures g.IsValidCluster(f.rwPosition.cluster) && f.rwPosition.cluster == t.fs.chains[f.startCluster][k]
    ensures g.IsValidCluster(t.fs.chains[f.startCluster][k + 1])
    ensures ByteOffset(g.ClusterToSector(f.rwPosition.cluster) + f.rwPosition.sector, g.bytesPerSector)
            == g.ClusterAddr(f.rwPosition.cluster + 1)
    ensures g.ClusterAddr(f.rwPosition.cluster + 1) + Wanted(f, len) <= |t.view|
    ensures g.ClusterAddr(t.fs.chains[f.startCluster][k + 1]) + Wanted(f, len) <= |t.view|
    ensures Wanted(f, len) <= g.BytesPerCluster()
    ensures DataFrom(g) <= g.ClusterAddr(t.fs.chains[f.startCluster][k + 1])
  {
    hide ByteOffset, WellFormed, Raw, Geometry.Valid;
    var chain, c := t.fs.chains[f.startCluster], f.rwPosition.cluster;
    ChainUsable(g, t, f.startCluster);
    DueIsNextStart(g, chain, k, f.rwPosition, f.currentPosition);
    OffsetMono(|chain|, k + 1, g.BytesPerCluster());
    ClusterPlace(g, c);
    ClusterPlace(g, chain[k + 1]);
    BpcPositive(g);
    OffsetMono(g.ClusterToSector(c + 1) + 1, g.endOfPartition, g.bytesPerSector);
    OffsetMono(g.ClusterToSector(c + 1), 0, g.bytesPerSector);
  }

  lemma SliceOfPrefix(s: seq<byte>, m: nat, a: nat, b: nat)
    requires a <= b <= m <= |s|
    ensures s[..m][a..b] == s[a..b]
  {
  }

  lemma MisreadAdjacent(g: Geometry, t: Snap, f: Handle, len: nat, k: nat)
    requires SoundAt(g, t, f) && f.startCluster in t.fs.chains && Misread(g, f, len)
    requires StandsAt(g, t.fs.chains[f.startCluster], k, f.rwPosition, f.currentPosition)
    requires g.ClusterToSector(f.rwPosition.cluster) + f.rwPosition.sector < g.endOfPartition
    requires && k + 1 < |t.fs.chains[f.startCluster]|
             && t.fs.chains[f.startCluster][k + 1] == t.fs.chains[f.startCluster][k] + 1
    ensures ReadsRight(g, t, f, len)
  {
    hide ByteOffset, WellFormed, Raw, Geometry.Valid, FileRaw, StandsAt;
    MisreadPlace(g, t, f, len, k);
    ChainUsable(g, t, f.startCluster);
    FileIs(g, t, f.startCluster);
    RawInCluster(g, t.view, t.fs.chains[f.startCluster], k + 1, 0, Wanted(f, len));
    var cur, n := f.currentPosition, Wanted(f, len);
    SliceOfPrefix(FileRaw(g, t, f.startCluster), f.filesize, cur, cur + n);
    forall buffer | |buffer| == n && ReadOutcome(g, t, f, len, buffer) ensures IsNext(g, t, f, buffer) {
    }
  }

  /** Changing the first byte of the cluster that should be read does not change what is read. */
  lemma MisreadElsewhere(g: Geometry, t: Snap, f: Handle, len: nat, k: nat)
    requires SoundAt(g, t, f) && f.startCluster in t.fs.chains && Misread(g, f, len)
    requires StandsAt(g, t.fs.chains[f.startCluster], k, f.rwPosition, f.currentPosition)
    requires g.ClusterToSector(f.rwPosition.cluster) + f.rwPosition.sector < g.endOfPartition
    requires && k + 1 < |t.fs.chains[f.startCluster]|
             && t.fs.chains[f.startCluster][k + 1] != t.fs.chains[f.startCluster][k] + 1
    ensures exists v :: SameTable(g, t.view, v) && !ReadsRight(g, t.(view := v), f, len)
  {
    hide ByteOffset, WellFormed, Raw, Geometry.Valid, FileRaw, StandsAt, ContentAt;
    MisreadPlace(g, t, f, len, k);
    var chain, n := t.fs.chains[f.startCluster], Wanted(f, len);
    var a, b := g.ClusterAddr(f.rwPosition.cluster + 1), g.ClusterAddr(chain[k + 1]);
    ApartFromNext(g, f.rwPosition.cluster, chain[k + 1]);
    var v := OneByteChanged(g, t.view, a, b);
    var u := t.(view := v);
    var buffer := v[a..a + n];
    NextByteOf(g, u, f, k);
    assert BehindCluster(g, u, f.rwPosition, buffer);
    FirstOfNext(g, u, f, buffer);
    assert buffer[0] == v[a];
    assert !ReadsRight(g, u, f, len);
  }

  /** Byte b of the data made different from byte a. */
  lemma OneByteChanged(g: Geometry, view: seq<byte>, a: nat, b: nat) returns (v: seq<byte>)
    requires a < |view| && DataFrom(g) <= b < |view| && a != b
    ensures SameTable(g, view, v) && v[a] != v[b]
  {
    var other: byte := if view[a] == 0 then 1 else 0;
    v := Splice(view, b, [other]);
    assert v[a] == view[a] && v[b] == other;
  }

  lemma FirstOfNext(g: Geometry, u: Snap, f: Handle, buffer: seq<byte>)
    requires SoundAt(g, u, f) && buffer != []
    ensures IsNext(g, u, f, buffer) ==>
              f.currentPosition < f.filesize && ContentAt(g, u, f)[f.currentPosition] == buffer[0]
  {
    hide ByteOffset, WellFormed, ContentAt;
  }

  /** The byte of the file behind a full cluster is the first of the next one. */
  lemma NextByteOf(g: Geometry, u: Snap, f: Handle, k: nat)
    requires SoundAt(g, u, f) && f.startCluster in u.fs.chains && k + 1 < |u.fs.chains[f.startCluster]|
    requires f.currentPosition == Start(g, k + 1) < f.filesize
    ensures g.ClusterAddr(u.fs.chains[f.startCluster][k + 1]) < |u.view|
    ensures ContentAt(g, u, f)[f.currentPosition] == u.view[g.ClusterAddr(u.fs.chains[f.startCluster][k + 1])]
  {
    hide ByteOffset, WellFormed, Raw, Geometry.Valid;
    ChainUsable(g, u, f.startCluster);
    BpcPositive(g);
    RawAt(g, u.view, u.fs.chains[f.startCluster], k + 1, 0);
  }

  lemma ApartFromNext(g: Geometry, c: nat, d: nat)
    requires g.Valid() && g.IsValidCluster(c) && g.IsValidCluster(d) && d != c + 1
    ensures g.ClusterAddr(d) != g.ClusterAddr(c + 1)
  {
    hide ByteOffset, Geometry.Valid;
    BpcPositive(g);
    ClusterPlace(g, c);
    if c == d {
    } else {
      var lo, hi := if c < d then c else d, if c < d then d else c;
      ClusterDistance(g, lo, hi - lo);
      if c < d { MulMono(2, d - c, g.BytesPerCluster()); } else { MulMono(1, c - d, g.BytesPerCluster()); }
    }
  }

  // ---- seeking ----

  /** Where a walk from the first cluster comes to: a function of the chain and the offset alone. */
  ghost function Landing(g: Geometry, chain: seq<nat>, off: nat): FilePosition
    requires g.Valid() && chain != [] && off <= Start(g, |chain|)
  {
    SplitOffset(g, off);
    LandingIndex(g, |chain|, off);
    if off == Start(g, |chain|) then FilePosition(chain[|chain| - 1], g.sectorsPerCluster, 0)
    else FilePosition(chain[off / g.BytesPerCluster()], off % g.BytesPerCluster() / g.bytesPerSector,
                      off % g.bytesPerSector)
  }

  lemma LandingIndex(g: Geometry, n: nat, off: nat)
    requires g.Valid() && 0 < n && off <= Start(g, n)
    ensures g.BytesPerCluster() > 0 && 0 <= off / g.BytesPerCluster() <= n
    ensures off / g.BytesPerCluster() == n <==> off == Start(g, n)
    ensures off == Start(g, n) ==> off % g.BytesPerCluster() / g.bytesPerSector == 0 && off % g.bytesPerSector == 0
  {
    hide ByteOffset;
    SplitOffset(g, off);
    var bpc, q := g.BytesPerCluster(), off / g.BytesPerCluster();
    OffsetMono(q + 1, n, bpc);
    OffsetMono(n + 1, q, bpc);
    OffsetMono(n, 0, bpc);
    OffsetMono(q, n, bpc);
    OffsetMono(off % bpc / g.bytesPerSector, 0, g.bytesPerSector);
    OffsetMono(1, off % bpc / g.bytesPerSector, g.bytesPerSector);
    OffsetMono(0, 0, g.bytesPerSector);
  }

  lemma LandingDenotes(g: Geometry, chain: seq<nat>, off: nat)
    requires g.Valid() && chain != [] && off <= Start(g, |chain|)
    ensures Denotes(g, chain, Landing(g, chain, off), off)
  {
    hide ByteOffset;
    SplitOffset(g, off);
    LandingIndex(g, |chain|, off);
    GeometryBounds(g);
    if off == Start(g, |chain|) {
      OffsetMono(|chain| - 1, 0, g.BytesPerCluster());
      assert StandsAt(g, chain, |chain| - 1, Landing(g, chain, off), off);
    } else {
      assert StandsAt(g, chain, off / g.BytesPerCluster(), Landing(g, chain, off), off);
    }
  }

  /** The cluster index the code derives for the current position: the one the cursor is in, also when due. */
  lemma CurrentIndex(g: Geometry, chain: seq<nat>, k: nat, pos: FilePosition, off: nat)
    requires g.Valid() && StandsAt(g, chain, k, pos, off)
    ensures g.BytesPerCluster() > 0 && off / g.BytesPerCluster() == if Due(g, pos) then k + 1 else k
  {
    hide ByteOffset;
    InsideCluster(g, chain, k, pos, off);
    SplitOffset(g, off);
    var bpc, q := g.BytesPerCluster(), off / g.BytesPerCluster();
    OffsetMono(k, k + 1, bpc);
    OffsetMono(k + 1, k + 2, bpc);
    OffsetMono(k + 1, 0, bpc);
    OffsetMono(q + 1, k, bpc);
    OffsetMono(q + 1, k + 1, bpc);
    OffsetMono(k + 1, q, bpc);
    OffsetMono(k + 2, q, bpc);
  }

  lemma NotBefore(g: Geometry, a: nat, b: nat)
    requires g.Valid() && a <= b
    ensures g.BytesPerCluster() > 0 && 0 <= a / g.BytesPerCluster() <= b / g.BytesPerCluster()
  {
    hide ByteOffset;
    SplitOffset(g, a);
    SplitOffset(g, b);
    OffsetMono(b / g.BytesPerCluster() + 1, a / g.BytesPerCluster(), g.BytesPerCluster());
  }

  lemma StandsIn(g: Geometry, chain: seq<nat>, k: nat, pos: FilePosition, off: nat)
    requires StandsAt(g, chain, k, pos, off)
    ensures k < |chain| && pos.cluster == chain[k]
  {
  }

  /** After a seek to p: inside the file the cursor is where a walk from the first cluster comes to,
      beyond the end only the position is noted. */
  ghost predicate Sought(g: Geometry, s: Snap, f: Handle, f': Handle, p: nat)
    requires SoundAt(g, s, f)
  {
    && f' == f.(currentPosition := p, rwPosition := f'.rwPosition)
    && if p <= f.filesize && f.startCluster != CLUSTER_FREE then
         s.fs.chains[f.startCluster] != [] && f'.rwPosition == Landing(g, s.fs.chains[f.startCluster], p)
       else f'.rwPosition == f.rwPosition
  }

  lemma SoughtCursor(g: Geometry, s: Snap, f: Handle, f': Handle, p: nat)
    requires ValidAt(g, s, f) && Sought(g, s, f, f', p)
    ensures ValidAt(g, s, f') && CursorAt(g, s, f') && ContentAt(g, s, f') == ContentAt(g, s, f)
  {
    hide ByteOffset, WellFormed, StandsAt, Landing, Raw;
    if p <= f.filesize && f.startCluster != CLUSTER_FREE {
      LandingDenotes(g, s.fs.chains[f.startCluster], p);
    }
  }

  /** After a read that delivered `buffer`. */
  ghost predicate ReadDone(g: Geometry, s: Snap, f: Handle, f': Handle, len: nat, buffer: seq<byte>)
    requires SoundAt(g, s, f)
  {
    && f' == f.(currentPosition := f.currentPosition + |buffer|, rwPosition := f'.rwPosition)
    && |buffer| == Wanted(f, len) && CursorAt(g, s, f')
    && if buffer == [] then f' == f else ReadOutcome(g, s, f, len, buffer)
  }
}
