/** What cutting a file to a size, or stretching it, does to an open file
    (source/fatfile.c, _FAT_ftruncate_r). */
module Truncation {
  import opened Bytes
  import opened Pages
  import opened Layout
  import opened Chains
  import opened Recency
  import opened Fat
  import opened FileBytes
  import opened FileSpec
  import opened Handles

  /** f cut to n bytes, or with zeros behind it up to n bytes. */
  function Resized(f: seq<byte>, n: nat): (r: seq<byte>)
    ensures |r| == n
  {
    if n <= |f| then f[..n] else f + Zeros(n - |f|)
  }

  /** Shrinking and growing again never shows old bytes: the cut-off end comes back as zeros. */
  lemma ShrinkThenGrow(f: seq<byte>, n: nat, m: nat)
    ensures Resized(Resized(f, n), m) == if m <= n then Resized(f, m) else Resized(f, n) + Zeros(m - n)
    ensures forall i :: n <= i < m ==> Resized(Resized(f, n), m)[i] == 0
  {
    if n > |f| && m <= n {
      assert Resized(Resized(f, n), m) == Resized(f, m);
    }
  }

  /** The chain an operation on f works on. */
  function Worked(f: Handle, f': Handle): nat {
    if f.startCluster == CLUSTER_FREE then f'.startCluster else f.startCluster
  }

  /** The outcome of resizing f to n bytes, from (s, f) to (t, f'), with result r.  It succeeds
      exactly when the disc has room.  A failure still sets the size: unless not even a first
      cluster was to be had, the file then claims more bytes than its chain holds. */
  ghost predicate TruncateOutcome(g: Geometry, s: Snap, f: Handle, t: Snap, f': Handle, n: nat, r: int)
    requires SoundAt(g, s, f)
  {
    && SnapOk(g, t) && (r == 0 || r == -1)
    && (r == 0 <==> n <= f.filesize || n <= Room(g, s.fs.links, |ChainOf(s, f.startCluster)|))
    && f'.append == f.append && f'.currentPosition == f.currentPosition
    && OthersKept(g, s, t, Worked(f, f')) && (f.startCluster == CLUSTER_FREE ==> f'.startCluster !in s.fs.chains)
    && (s.fs.count == FreeCount(s.fs.links) ==> t.fs.count == FreeCount(t.fs.links))
    && f'.rwPosition == Begun(f, f'.startCluster).rwPosition
    && if r == 0 then
         && ValidAt(g, t, f') && ContentAt(g, t, f') == Resized(ContentAt(g, s, f), n)
         && (!Phantom(s.fs.links, s.fs.hint) ==> !Phantom(t.fs.links, t.fs.hint))
         && (|| ChainOf(t, f'.startCluster) <= ChainOf(s, f.startCluster)
             || ChainOf(s, f.startCluster) <= ChainOf(t, f'.startCluster))
       else
         && FreeSet(t.fs.links) == {}
         && if f.startCluster == CLUSTER_FREE && FreeSet(s.fs.links) == {} then f' == f && t.view == s.view
            else
              && f'.filesize == n > Start(g, |ChainOf(t, f'.startCluster)|)
              && SoundAt(g, t, f'.(filesize := f.filesize))
              && ContentAt(g, t, f'.(filesize := f.filesize)) == ContentAt(g, s, f)
  }

  /** A file that claims more than its chain holds is not sound any more. */
  lemma FailedResizeIsUnsound(g: Geometry, s: Snap, f: Handle, t: Snap, f': Handle, n: nat)
    requires SoundAt(g, s, f) && TruncateOutcome(g, s, f, t, f', n, -1)
    ensures SoundAt(g, t, f') <==> f.startCluster == CLUSTER_FREE && FreeSet(s.fs.links) == {}
  {
    hide ByteOffset, WellFormed, FreeSet;
    if f' == f && f.startCluster == CLUSTER_FREE && FreeSet(s.fs.links) == {} {
      NoChainAtFree(g, s);
      NoChainAtFree(g, t);
      EmptyStart(g);
    }
  }

  /** On a full disc every stretch beyond the file's clusters ends that way. */
  lemma StretchOnFullDisc(g: Geometry, s: Snap, f: Handle, t: Snap, f': Handle, n: nat, r: int)
    requires ValidAt(g, s, f) && f.startCluster != CLUSTER_FREE && FreeSet(s.fs.links) == {}
    requires n > Start(g, |ChainOf(s, f.startCluster)|) && TruncateOutcome(g, s, f, t, f', n, r)
    ensures r == -1 && f'.filesize == n && !SoundAt(g, t, f')
  {
    hide ByteOffset, WellFormed, FreeSet, Raw;
    RoomWhenFull(g, s.fs.links, |ChainOf(s, f.startCluster)|);
    FailedResizeIsUnsound(g, s, f, t, f', n);
  }

  /** For example: one of the two one-cluster files of a full volume, stretched by a byte. */
  lemma StretchOnFullVolume()
    ensures var s, f := Snap(Zeros(2560), FULL), Entry(512, 2);
            && ValidAt(TINY, s, f)
            && forall t, f', r :: TruncateOutcome(TINY, s, f, t, f', 513, r) ==> r == -1 && !SoundAt(TINY, t, f')
  {
    hide WellFormed, FreeSet, Raw, TruncateOutcome;
    var s, f := Snap(Zeros(2560), FULL), Entry(512, 2);
    FullIsWellFormed();
    assert ValidAt(TINY, s, f);
    forall t, f', r | TruncateOutcome(TINY, s, f, t, f', 513, r) ensures r == -1 && !SoundAt(TINY, t, f') {
      StretchOnFullDisc(TINY, s, f, t, f', 513, r);
    }
  }

  // ---- growing ----

  /** What there is after the first cluster, if one had to be taken. */
  ghost predicate HasFirst(g: Geometry, s: Snap, f: Handle, s1: Snap, f1: Handle) {
    && f1.startCluster in s1.fs.chains
    && (f.startCluster != CLUSTER_FREE ==> s1 == s && f1 == f)
    && (f.startCluster == CLUSTER_FREE ==>
          && FirstTaken(g, s, s1, f1.startCluster)
          && f1 == f.(startCluster := f1.startCluster, rwPosition := FilePosition(f1.startCluster, 0, 0)))
  }

  lemma FirstIsThere(g: Geometry, s: Snap, f: Handle, s1: Snap, f1: Handle)
    requires f1.startCluster in s1.fs.chains
    requires f.startCluster != CLUSTER_FREE ==> s1 == s && f1 == f
    requires f.startCluster == CLUSTER_FREE ==>
               && FirstTaken(g, s, s1, f1.startCluster)
               && f1 == f.(startCluster := f1.startCluster, rwPosition := FilePosition(f1.startCluster, 0, 0))
    ensures HasFirst(g, s, f, s1, f1)
  {
    hide FirstTaken;
  }

  lemma FirstGives(g: Geometry, s: Snap, f: Handle, s1: Snap, f1: Handle)
    requires ValidAt(g, s, f) && HasFirst(g, s, f, s1, f1)
    ensures SnapOk(g, s1) && f1.filesize == f.filesize && f1.startCluster != CLUSTER_FREE
    ensures || Exactly(g, |s1.fs.chains[f1.startCluster]|, f.filesize)
            || (f.filesize == 0 && |s1.fs.chains[f1.startCluster]| == 1)
    ensures Room(g, s1.fs.links, |s1.fs.chains[f1.startCluster]|) == Room(g, s.fs.links, |ChainOf(s, f.startCluster)|)
    ensures OthersKept(g, s, s1, f1.startCluster)
    ensures && f.filesize <= |FileRaw(g, s1, f1.startCluster)|
            && FileRaw(g, s1, f1.startCluster)[..f.filesize] == ContentAt(g, s, f)
    ensures s.fs.count == FreeCount(s.fs.links) ==> s1.fs.count == FreeCount(s1.fs.links)
    ensures ChainOf(s, f.startCluster) <= s1.fs.chains[f1.startCluster]
    ensures f.startCluster == CLUSTER_FREE ==> FreeSet(s.fs.links) != {} && f1.startCluster !in s.fs.chains
  {
    hide ByteOffset, WellFormed, Raw, FreeSet, OthersKept, Room;
    NoChainAtFree(g, s);
    NoChainAtFree(g, s1);
    EmptyStart(g);
    ChainUsable(g, s1, f1.startCluster);
    if f.startCluster == CLUSTER_FREE {
      FirstKeepsOthers(g, s, s1, f1.startCluster);
      assert FreeCount(s.fs.links) > 0;
    } else {
      OthersKeptRefl(g, s, f.startCluster);
    }
  }

  lemma GrowDone(g: Geometry, s: Snap, f: Handle, s1: Snap, f1: Handle, t: Snap, f': Handle, n: nat, pos: FilePosition)
    requires ValidAt(g, s, f) && HasFirst(g, s, f, s1, f1) && f.filesize < n <= FILE_MAX_SIZE
    requires FileStep(g, s1, t, f1.startCluster, f.filesize, f.filesize, Zeros(n - f.filesize))
    requires Denotes(g, ChainOf(t, f1.startCluster), pos, n) && !Phantom(t.fs.links, t.fs.hint)
    requires n <= Room(g, s1.fs.links, |s1.fs.chains[f1.startCluster]|)
    requires f' == f1.(filesize := n, appendPosition := if f.append then pos else f1.appendPosition)
    ensures TruncateOutcome(g, s, f, t, f', n, 0)
  {
    hide ByteOffset, WellFormed, Raw, FreeSet, OthersKept, Room, Exactly, StandsAt, FileStep, Overlay, HasFirst;
    var h := f1.startCluster;
    FirstGives(g, s, f, s1, f1);
    StepFacts(g, s1, t, h, f.filesize, f.filesize, Zeros(n - f.filesize));
    OthersKeptTrans(g, s, s1, t, h);
    HasFirstSame(g, s, f, s1, f1);
    OverlayAtEnd(ContentAt(g, s, f), Zeros(n - f.filesize));
  }

  lemma HasFirstSame(g: Geometry, s: Snap, f: Handle, s1: Snap, f1: Handle)
    requires HasFirst(g, s, f, s1, f1)
    ensures f1.append == f.append && f1.currentPosition == f.currentPosition
    ensures f.startCluster != CLUSTER_FREE ==> f1 == f
    ensures f.startCluster == CLUSTER_FREE ==> f1.rwPosition == FilePosition(f1.startCluster, 0, 0)
  {
  }

  lemma OverlayAtEnd(f: seq<byte>, d: seq<byte>)
    ensures Overlay(f, |f|, d) == f + d
  {
    assert f[..|f|] == f;
  }

  lemma RoomWhenFull(g: Geometry, links: seq<nat>, m: nat)
    requires FreeSet(links) == {}
    ensures Room(g, links, m) == Start(g, m)
  {
  }

  /** Not even a first cluster was to be had. */
  lemma StretchRefused(g: Geometry, s: Snap, t: Snap, f: Handle, n: nat)
    requires ValidAt(g, s, f) && f.startCluster == CLUSTER_FREE && f.filesize < n && SnapOk(g, t)
    requires t.fs.links == s.fs.links && t.fs.chains == s.fs.chains && t.view == s.view && t.fs.count == s.fs.count
    requires FreeSet(t.fs.links) == {}
    ensures TruncateOutcome(g, s, f, t, f, n, -1)
  {
    hide ByteOffset, WellFormed, Raw, FreeSet, Room, OthersKept;
    NoChainAtFree(g, s);
    EmptyStart(g);
    RoomWhenFull(g, s.fs.links, 0);
    SameVolume(g, s, t);
  }

  lemma GrowFailed(g: Geometry, s: Snap, f: Handle, s1: Snap, f1: Handle, t: Snap, f': Handle, n: nat)
    requires ValidAt(g, s, f) && HasFirst(g, s, f, s1, f1) && f.filesize < n <= FILE_MAX_SIZE
    requires exists z :: FileStep(g, s1, t, f1.startCluster, f.filesize, f.filesize, z)
    requires FreeSet(t.fs.links) == {} && n > Room(g, s1.fs.links, |s1.fs.chains[f1.startCluster]|)
    requires f' == f1.(filesize := n, appendPosition := if f.append then f1.rwPosition else f1.appendPosition)
    ensures TruncateOutcome(g, s, f, t, f', n, -1)
  {
    hide ByteOffset, WellFormed, Raw, FreeSet, OthersKept, Room, Exactly, StandsAt, FileStep, Overlay, HasFirst;
    var h := f1.startCluster;
    var z :| FileStep(g, s1, t, h, f.filesize, f.filesize, z);
    FirstGives(g, s, f, s1, f1);
    HasFirstSame(g, s, f, s1, f1);
    StepFacts(g, s1, t, h, f.filesize, f.filesize, z);
    BehindTheEnd(g, s1, t, h, f.filesize, z);
    OthersKeptTrans(g, s, s1, t, h);
    RoomWhenFull(g, t.fs.links, |t.fs.chains[h]|);
  }

  // ---- shrinking ----

  /** Nothing happens when the size stays. */
  lemma ResizeToSame(g: Geometry, s: Snap, f: Handle)
    requires ValidAt(g, s, f)
    ensures TruncateOutcome(g, s, f, s, f, f.filesize, 0)
  {
    hide ByteOffset, WellFormed, Raw, FreeSet, Room, Exactly, StandsAt;
    NoChainAtFree(g, s);
    OthersKeptRefl(g, s, f.startCluster);
  }

  lemma ShrinkToNothing(g: Geometry, s: Snap, f: Handle, t: Snap, f': Handle)
    requires ValidAt(g, s, f) && f.filesize > 0 && f.startCluster != CLUSTER_FREE && SnapOk(g, t)
    requires SameData(g, s.view, t.view) && t.fs.chains == s.fs.chains - {f.startCluster}
    requires s.fs.count == FreeCount(s.fs.links) ==> t.fs.count == FreeCount(t.fs.links)
    requires !Phantom(s.fs.links, s.fs.hint) ==> !Phantom(t.fs.links, t.fs.hint)
    requires f' == f.(filesize := 0, startCluster := CLUSTER_FREE, appendPosition := FilePosition(CLUSTER_FREE, 0, 0))
    ensures TruncateOutcome(g, s, f, t, f', 0, 0)
  {
    hide ByteOffset, WellFormed, Raw, FreeSet, Room, StandsAt;
    NoChainAtFree(g, s);
    NoChainAtFree(g, t);
    EmptyStart(g);
    RawSameData(g, s.view, t.view, []);
    KeepsOthers(g, s, t, f.startCluster, []);
  }

  /** The number of clusters n bytes need, as the code computes it. */
  lemma ClustersFor(g: Geometry, n: nat)
    requires g.Valid() && n > 0
    ensures g.BytesPerCluster() > 0 && Exactly(g, (n - 1) / g.BytesPerCluster() + 1, n)
  {
    hide ByteOffset;
    SplitOffset(g, n - 1);
  }

  lemma FewerClusters(g: Geometry, m: nat, n: nat, m': nat, n': nat)
    requires g.Valid() && Exactly(g, m, n) && Exactly(g, m', n') && n <= n'
    ensures m <= m'
  {
    hide ByteOffset;
    if m > 0 { OffsetMono(m', m - 1, g.BytesPerCluster()); }
  }

  lemma ShrinkTo(g: Geometry, s: Snap, f: Handle, t: Snap, f': Handle, n: nat, m: nat)
    requires ValidAt(g, s, f) && 0 < n < f.filesize && SnapOk(g, t)
    requires Exactly(g, m, n) && 0 < m <= |ChainOf(s, f.startCluster)|
    requires && SameData(g, s.view, t.view)
             && t.fs.chains == s.fs.chains[f.startCluster := ChainOf(s, f.startCluster)[..m]]
    requires s.fs.count == FreeCount(s.fs.links) ==> t.fs.count == FreeCount(t.fs.links)
    requires !Phantom(s.fs.links, s.fs.hint) ==> !Phantom(t.fs.links, t.fs.hint)
    requires f' == f.(filesize := n, appendPosition := f'.appendPosition)
    requires f.append ==> Denotes(g, ChainOf(t, f.startCluster), f'.appendPosition, n)
    ensures TruncateOutcome(g, s, f, t, f', n, 0)
  {
    hide ByteOffset, WellFormed, Raw, FreeSet, Room, StandsAt;
    NoChainAtFree(g, s);
    var h := f.startCluster;
    ChainUsable(g, s, h);
    ChainUsable(g, t, h);
    FileIs(g, s, h);
    FileIs(g, t, h);
    RawSameData(g, s.view, t.view, []);
    KeepsOthers(g, s, t, h, []);
    RawSameData(g, s.view, t.view, t.fs.chains[h]);
    RawPrefix(g, s.view, t.fs.chains[h], s.fs.chains[h]);
    assert ContentAt(g, t, f') == FileRaw(g, s, h)[..|FileRaw(g, t, h)|][..n];
    assert ContentAt(g, t, f') == ContentAt(g, s, f)[..n];
  }

  // ---- what a resize does to size, chain and cursor ----

  lemma ResizedSize(g: Geometry, s: Snap, f: Handle, t: Snap, f': Handle, n: nat)
    requires ValidAt(g, s, f) && TruncateOutcome(g, s, f, t, f', n, 0)
    ensures f'.filesize == n && f'.currentPosition == f.currentPosition
    ensures f'.startCluster == CLUSTER_FREE <==> n == 0
    ensures f'.startCluster != CLUSTER_FREE ==> f'.startCluster in t.fs.chains && Distinct(t.fs.chains[f'.startCluster])
    ensures f.startCluster != CLUSTER_FREE && n > 0 ==> f'.startCluster == f.startCluster
    ensures f.startCluster == CLUSTER_FREE <==> f.filesize == 0
  {
    hide ByteOffset, WellFormed, Raw, FreeSet, Room, StandsAt, OthersKept, Phantom;
    assert |ContentAt(g, t, f')| == n;
    StartAndSize(g, s, f);
    StartAndSize(g, t, f');
    if f.startCluster != CLUSTER_FREE && n > 0 {
      ChainUsable(g, s, f.startCluster);
      ChainUsable(g, t, f'.startCluster);
      assert ChainOf(s, f.startCluster)[0] == f.startCluster && ChainOf(t, f'.startCluster)[0] == f'.startCluster;
    }
  }

  lemma StartAndSize(g: Geometry, s: Snap, f: Handle)
    requires ValidAt(g, s, f)
    ensures f.startCluster == CLUSTER_FREE <==> f.filesize == 0
    ensures f.startCluster != CLUSTER_FREE ==>
              && f.startCluster in s.fs.chains
              && Distinct(s.fs.chains[f.startCluster])
              && s.fs.chains[f.startCluster] != []
  {
    hide ByteOffset, WellFormed;
    NoChainAtFree(g, s);
    EmptyStart(g);
    if f.startCluster != CLUSTER_FREE { ChainUsable(g, s, f.startCluster); }
  }

  /** Of the two chains the one of the bigger size extends the other. */
  lemma FewerClustersIn(g: Geometry, s: Snap, f: Handle, t: Snap, f': Handle, n: nat)
    requires ValidAt(g, s, f) && TruncateOutcome(g, s, f, t, f', n, 0)
    ensures n >= f.filesize ==> ChainOf(s, f.startCluster) <= ChainOf(t, f'.startCluster)
    ensures n <= f.filesize ==> ChainOf(t, f'.startCluster) <= ChainOf(s, f.startCluster)
    ensures f'.startCluster != CLUSTER_FREE ==>
              ChainOf(t, f'.startCluster) != [] && ChainOf(t, f'.startCluster)[0] == f'.startCluster
  {
    hide ByteOffset, WellFormed, Raw, FreeSet, Room, StandsAt, OthersKept, Phantom, Exactly;
    ResizedSize(g, s, f, t, f', n);
    var m, m' := |ChainOf(s, f.startCluster)|, |ChainOf(t, f'.startCluster)|;
    if n >= f.filesize { FewerClusters(g, m, f.filesize, m', n); }
    if n <= f.filesize { FewerClusters(g, m', n, m, f.filesize); }
    if f'.startCluster != CLUSTER_FREE { ChainUsable(g, t, f'.startCluster); }
  }

  lemma CursorAtStart(g: Geometry, chain: seq<nat>, pos: FilePosition)
    requires g.Valid() && chain != [] && pos == FilePosition(chain[0], 0, 0)
    ensures Denotes(g, chain, pos, 0)
  {
    hide ByteOffset;
    GeometryBounds(g);
    OffsetMono(0, 0, g.BytesPerCluster());
    OffsetMono(0, 0, g.bytesPerSector);
    assert StandsAt(g, chain, 0, pos, 0);
  }

  lemma StandsSomewhere(g: Geometry, chain: seq<nat>, k: nat, pos: FilePosition, off: nat)
    requires StandsAt(g, chain, k, pos, off)
    ensures Denotes(g, chain, pos, off)
  {
  }

  // ---- opening ----

  /** A file as its directory entry describes it, with the cursor at the start. */
  function Entry(size: nat, start: nat): Handle {
    Handle(size, start, 0, FilePosition(start, 0, 0), FilePosition(start, 0, 0), false)
  }

  lemma EmptyIsValid(g: Geometry, s: Snap)
    requires SnapOk(g, s)
    ensures ValidAt(g, s, Entry(0, CLUSTER_FREE))
  {
    hide ByteOffset, WellFormed;
    NoChainAtFree(g, s);
    EmptyStart(g);
  }

  lemma OpenedIsValid(g: Geometry, s: Snap, f: Handle)
    requires ValidAt(g, s, Entry(f.filesize, f.startCluster))
    requires f.currentPosition == 0 && f.rwPosition == FilePosition(f.startCluster, 0, 0)
    requires f.append && f.startCluster != CLUSTER_FREE ==>
               Denotes(g, ChainOf(s, f.startCluster), f.appendPosition, f.filesize)
    ensures && ValidAt(g, s, f)
            && CursorAt(g, s, f)
            && SoundAt(g, s, f)
            && SoundAt(g, s, Entry(f.filesize, f.startCluster))
    ensures ContentAt(g, s, f) == ContentAt(g, s, Entry(f.filesize, f.startCluster))
  {
    hide ByteOffset, WellFormed, StandsAt, Exactly, Raw;
    StartAndSize(g, s, Entry(f.filesize, f.startCluster));
    if f.startCluster != CLUSTER_FREE {
      ChainUsable(g, s, f.startCluster);
      CursorAtStart(g, s.fs.chains[f.startCluster], f.rwPosition);
    }
  }
}
