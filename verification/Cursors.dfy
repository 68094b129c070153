/** The read/write cursor of an open file: which operations keep it right.  Appends and resizes
    leave the cursor alone, and a seek beyond the end leaves it where it was; it is then right
    again only under the conditions stated here. */
module Cursors {
  import opened Bytes
  import opened Pages
  import opened Layout
  import opened Chains
  import opened Recency
  import opened Fat
  import opened FileBytes
  import opened FileSpec
  import opened Handles
  import opened Truncation

  // ---- growing past the position ----

  /** The end of the file moves from before the position to it or past it. */
  predicate Passed(f: Handle, size: nat) {
    f.filesize < f.currentPosition <= size
  }

  /** A file may grow to `size` bytes under its position: unless the end passes the position, or
      the cursor, cut off from the file before, already stands there in the file's last cluster. */
  ghost predicate CursorKept(g: Geometry, s: Snap, f: Handle, size: nat) {
    !Passed(f, size) || Denotes(g, ChainOf(s, f.startCluster), f.rwPosition, f.currentPosition)
  }

  /** The clusters the file grew by hold the cursor, at the place of the position: the allocator
      gave back the very cluster a cut had taken from under it. */
  ghost predicate Regained(g: Geometry, chain: seq<nat>, chain': seq<nat>, f: Handle) {
    exists k: nat :: |chain| <= k && StandsAt(g, chain', k, f.rwPosition, f.currentPosition)
  }

  /** The cursor stands in a cluster of the file. */
  ghost predicate Anchored(s: Snap, f: Handle) {
    f.startCluster != CLUSTER_FREE ==> f.rwPosition.cluster in ChainOf(s, f.startCluster)
  }

  /** The file grew, position and cursor stayed: whether the cursor is right. */
  lemma CursorAfterGrowth(g: Geometry, s: Snap, f: Handle, t: Snap, f': Handle)
    requires ValidAt(g, s, f) && CursorAt(g, s, f) && ValidAt(g, t, f')
    requires f.startCluster != CLUSTER_FREE ==> f'.startCluster == f.startCluster
    requires ChainOf(s, f.startCluster) <= ChainOf(t, f'.startCluster) && f.filesize <= f'.filesize
    requires f'.currentPosition == f.currentPosition && f'.rwPosition == Begun(f, f'.startCluster).rwPosition
    ensures CursorAt(g, t, f') <==>
            CursorKept(g, s, f, f'.filesize) || Regained(g, ChainOf(s, f.startCluster), ChainOf(t, f'.startCluster), f')
    ensures Anchored(s, f) ==> (CursorAt(g, t, f') <==> CursorKept(g, s, f, f'.filesize)) && Anchored(t, f')
  {
    hide ByteOffset, WellFormed, StandsAt, Exactly;
    var chain, chain', c := ChainOf(s, f.startCluster), ChainOf(t, f'.startCluster), f.currentPosition;
    StartAndSize(g, s, f);
    StartAndSize(g, t, f');
    NoChainAtFree(g, s);
    if f'.startCluster != CLUSTER_FREE {
      ChainUsable(g, t, f'.startCluster);
      if c <= f.filesize {
        KeptInside(g, s, f, t, f');
      } else {
        InOldOrNew(g, chain, chain', f'.rwPosition, c);
        NoneInEmpty(g, f.rwPosition, c);
        NoneInEmpty(g, f'.rwPosition, c);
      }
      if Anchored(s, f) { NotRegained(g, s, f, t, f'); }
    }
  }

  lemma KeptInside(g: Geometry, s: Snap, f: Handle, t: Snap, f': Handle)
    requires ValidAt(g, s, f) && CursorAt(g, s, f) && SnapOk(g, t) && f'.startCluster in t.fs.chains
    requires f.startCluster != CLUSTER_FREE ==> f'.startCluster == f.startCluster
    requires f'.startCluster != CLUSTER_FREE && ChainOf(s, f.startCluster) <= ChainOf(t, f'.startCluster)
    requires f'.rwPosition == Begun(f, f'.startCluster).rwPosition && f.currentPosition <= f.filesize
    ensures Denotes(g, t.fs.chains[f'.startCluster], f'.rwPosition, f.currentPosition)
  {
    hide ByteOffset, WellFormed, StandsAt, Exactly;
    StartAndSize(g, s, f);
    ChainUsable(g, t, f'.startCluster);
    if f.startCluster == CLUSTER_FREE {
      CursorAtStart(g, t.fs.chains[f'.startCluster], f'.rwPosition);
    } else {
      DenotesGrows(g, s.fs.chains[f.startCluster], t.fs.chains[f'.startCluster], f.rwPosition, f.currentPosition);
    }
  }

  lemma NoneInEmpty(g: Geometry, pos: FilePosition, off: nat)
    ensures !Denotes(g, [], pos, off)
  {
  }

  lemma InOldOrNew(g: Geometry, chain: seq<nat>, chain': seq<nat>, pos: FilePosition, off: nat)
    requires chain <= chain'
    ensures Denotes(g, chain', pos, off) <==>
            Denotes(g, chain, pos, off) || exists k: nat :: |chain| <= k && StandsAt(g, chain', k, pos, off)
  {
    hide ByteOffset;
    if Denotes(g, chain', pos, off) {
      var k: nat :| StandsAt(g, chain', k, pos, off);
      if k < |chain| { assert StandsAt(g, chain, k, pos, off); }
    }
    if Denotes(g, chain, pos, off) { DenotesGrows(g, chain, chain', pos, off); }
  }

  /** A cursor that stands in the file cannot be given back to it. */
  lemma NotRegained(g: Geometry, s: Snap, f: Handle, t: Snap, f': Handle)
    requires Anchored(s, f) && g.Valid() && ChainOf(s, f.startCluster) <= ChainOf(t, f'.startCluster)
    requires Distinct(ChainOf(t, f'.startCluster)) && f'.startCluster != CLUSTER_FREE
    requires ChainOf(t, f'.startCluster) != [] && ChainOf(t, f'.startCluster)[0] == f'.startCluster
    requires f'.currentPosition == f.currentPosition && f'.rwPosition == Begun(f, f'.startCluster).rwPosition
    ensures Anchored(t, f')
    ensures Regained(g, ChainOf(s, f.startCluster), ChainOf(t, f'.startCluster), f') ==> f.currentPosition == 0
  {
    hide ByteOffset;
    var chain, chain' := ChainOf(s, f.startCluster), ChainOf(t, f'.startCluster);
    var j := if f.startCluster == CLUSTER_FREE then 0
             else var i :| 0 <= i < |chain| && chain[i] == f.rwPosition.cluster; i;
    assert chain'[j] == f'.rwPosition.cluster;
    if k: nat :| |chain| <= k && StandsAt(g, chain', k, f'.rwPosition, f'.currentPosition) {
      assert k == j;
      EmptyStart(g);
      OffsetMono(0, 0, g.bytesPerSector);
    }
  }

  /** An append leaves position and cursor alone: whether the cursor is right after n bytes. */
  lemma CursorAfterAppend(g: Geometry, s: Snap, f: Handle, t: Snap, f': Handle, d: seq<byte>, n: nat)
    requires ValidAt(g, s, f) && CursorAt(g, s, f) && f.append && WriteOutcome(g, s, f, t, f', d, n)
    ensures CursorAt(g, t, f') <==>
            || CursorKept(g, s, f, f.filesize + n)
            || Regained(g, ChainOf(s, f.startCluster), ChainOf(t, f'.startCluster), f')
    ensures Anchored(s, f) ==> (CursorAt(g, t, f') <==> CursorKept(g, s, f, f.filesize + n)) && Anchored(t, f')
  {
    hide ByteOffset, WellFormed, StandsAt, Exactly, Raw, FreeSet, Room, OthersKept, Overlay, Phantom;
    assert |ContentAt(g, t, f')| == f.filesize + n;
    CursorAfterGrowth(g, s, f, t, f');
  }

  /** For example: a file of 10 bytes open for appending, a seek to 100, an append of 200 bytes.
      The position is inside the file now and the cursor is not there. */
  lemma AppendPastPosition(g: Geometry, s: Snap, f: Handle, f1: Handle, t: Snap, f': Handle, d: seq<byte>)
    requires ValidAt(g, s, f) && CursorAt(g, s, f) && f.append && f.filesize == 10 && f.currentPosition <= 10
    requires Sought(g, s, f, f1, 100) && |d| == 200 && WriteOutcome(g, s, f1, t, f', d, 200)
    ensures f'.currentPosition == 100 && f'.filesize == 210 && !CursorAt(g, t, f')
  {
    hide ByteOffset, WellFormed, StandsAt, Exactly, Raw, FreeSet, Room, OthersKept, Overlay, Phantom;
    StartAndSize(g, s, f);
    CursorInFile(g, s, f);
    assert |ContentAt(g, t, f')| == 210;
    CursorAfterAppend(g, s, f1, t, f', d, 200);
    OnlyOne(g, s.fs.chains[f.startCluster], f.rwPosition, f.currentPosition, 100);
  }

  lemma OnlyOne(g: Geometry, chain: seq<nat>, pos: FilePosition, p: nat, q: nat)
    requires Distinct(chain) && Denotes(g, chain, pos, p)
    ensures Denotes(g, chain, pos, q) <==> p == q
  {
    if Denotes(g, chain, pos, q) {
      var k :| StandsAt(g, chain, k, pos, p);
      var k' :| StandsAt(g, chain, k', pos, q);
      AtUnique(g, chain, pos, k, p, k', q);
    }
  }

  // ---- cursors that stand in the file ----

  lemma CursorInFile(g: Geometry, s: Snap, f: Handle)
    requires ValidAt(g, s, f) && CursorAt(g, s, f) && f.currentPosition <= f.filesize
    ensures Anchored(s, f)
  {
    hide ByteOffset, WellFormed, Exactly;
    StartAndSize(g, s, f);
    if f.startCluster != CLUSTER_FREE {
      var k: nat :| StandsAt(g, s.fs.chains[f.startCluster], k, f.rwPosition, f.currentPosition);
      StandsIn(g, s.fs.chains[f.startCluster], k, f.rwPosition, f.currentPosition);
    }
  }

  /** Writes, reads and seeks leave the cursor in the file. */
  lemma WriteAnchored(g: Geometry, s: Snap, f: Handle, t: Snap, f': Handle, d: seq<byte>, n: int)
    requires ValidAt(g, s, f) && CursorAt(g, s, f) && Anchored(s, f) && WriteOutcome(g, s, f, t, f', d, n)
    ensures Anchored(t, f')
  {
    hide ByteOffset, WellFormed, StandsAt, Exactly, Raw, FreeSet, Room, OthersKept, Overlay, Phantom;
    if n >= 0 && !f.append {
      assert |ContentAt(g, t, f')| >= f'.currentPosition;
      CursorInFile(g, t, f');
    } else if f'.startCluster != CLUSTER_FREE {
      var chain, chain' := ChainOf(s, f.startCluster), ChainOf(t, f'.startCluster);
      if f.startCluster == CLUSTER_FREE {
        StartOfChain(g, t, f');
      } else {
        assert chain'[..|chain|] == chain;
      }
    }
  }

  lemma StartOfChain(g: Geometry, t: Snap, f: Handle)
    requires SoundAt(g, t, f) && f.startCluster != CLUSTER_FREE
    ensures f.startCluster in ChainOf(t, f.startCluster)
  {
    ChainUsable(g, t, f.startCluster);
    assert ChainOf(t, f.startCluster)[0] == f.startCluster;
  }

  lemma SeekAnchored(g: Geometry, s: Snap, f: Handle, f': Handle, p: nat)
    requires ValidAt(g, s, f) && Anchored(s, f) && Sought(g, s, f, f', p)
    ensures Anchored(s, f')
  {
    hide ByteOffset, WellFormed, StandsAt, Exactly, Raw, Landing;
    SoughtCursor(g, s, f, f', p);
    if p <= f.filesize { CursorInFile(g, s, f'); }
  }

  lemma ReadAnchored(g: Geometry, s: Snap, f: Handle, f': Handle, len: nat, buffer: seq<byte>)
    requires ValidAt(g, s, f) && Anchored(s, f) && ReadDone(g, s, f, f', len, buffer)
    ensures Anchored(s, f')
  {
    hide ByteOffset, WellFormed, StandsAt, Exactly, Raw, ReadOutcome;
    if buffer != [] { CursorInFile(g, s, f'); }
  }

  /** Only a cut can take the cluster away: exactly when the cursor stands behind the clusters kept. */
  lemma ResizeAnchored(g: Geometry, s: Snap, f: Handle, t: Snap, f': Handle, n: nat)
    requires ValidAt(g, s, f) && CursorAt(g, s, f) && Anchored(s, f) && TruncateOutcome(g, s, f, t, f', n, 0)
    ensures g.BytesPerCluster() > 0
    ensures 0 < n < f.filesize ==> 0 <= (n - 1) / g.BytesPerCluster() + 1 <= |ChainOf(s, f.startCluster)|
    ensures Anchored(t, f') <==>
            (0 < n < f.filesize ==>
               f.rwPosition.cluster in ChainOf(s, f.startCluster)[..(n - 1) / g.BytesPerCluster() + 1])
  {
    hide ByteOffset, WellFormed, StandsAt, Raw, FreeSet, Room, OthersKept, Phantom, Exactly;
    BpcPositive(g);
    ResizedSize(g, s, f, t, f', n);
    FewerClustersIn(g, s, f, t, f', n);
    if n >= f.filesize {
      CursorAfterGrowth(g, s, f, t, f');
    } else if n > 0 {
      ClustersLeft(g, |ChainOf(t, f'.startCluster)|, n);
    }
  }

  lemma ClustersLeft(g: Geometry, m: nat, n: nat)
    requires g.Valid() && Exactly(g, m, n) && n > 0
    ensures g.BytesPerCluster() > 0 && m == (n - 1) / g.BytesPerCluster() + 1
  {
    hide ByteOffset, Exactly;
    ClustersFor(g, n);
    var k := (n - 1) / g.BytesPerCluster() + 1;
    FewerClusters(g, m, n, k, n);
    FewerClusters(g, k, n, m, n);
  }

  // ---- resizing ----

  /** What a caller has to see to for the cursor to survive a resize: growing must not take the
      size past the position, and shrinking must not put the end on a cluster boundary where the
      cursor stands in the cluster behind it. */
  ghost predicate CursorSafe(g: Geometry, s: Snap, f: Handle, n: nat)
    requires g.BytesPerCluster() > 0
  {
    if n > f.filesize then CursorKept(g, s, f, n)
    else if n < f.filesize && n > 0 then
      !(f.currentPosition == n && n % g.BytesPerCluster() == 0 && !Due(g, f.rwPosition))
    else true
  }

  /** A resize restores the cursor blindly.  It is right afterwards exactly under that condition,
      or if a cursor that stood in no cluster of the file was given its cluster back. */
  lemma CursorAfterTruncate(g: Geometry, s: Snap, f: Handle, t: Snap, f': Handle, n: nat)
    requires ValidAt(g, s, f) && CursorAt(g, s, f) && TruncateOutcome(g, s, f, t, f', n, 0)
    ensures g.BytesPerCluster() > 0
    ensures CursorAt(g, t, f') <==>
            CursorSafe(g, s, f, n) || Regained(g, ChainOf(s, f.startCluster), ChainOf(t, f'.startCluster), f')
    ensures Anchored(s, f) ==> (CursorAt(g, t, f') <==> CursorSafe(g, s, f, n))
  {
    hide ByteOffset, WellFormed, Raw, FreeSet, Room, StandsAt, OthersKept, Phantom, Exactly;
    BpcPositive(g);
    ResizedSize(g, s, f, t, f', n);
    FewerClustersIn(g, s, f, t, f', n);
    if n >= f.filesize {
      CursorAfterGrowth(g, s, f, t, f');
    } else {
      NoneGained(g, ChainOf(s, f.startCluster), ChainOf(t, f'.startCluster), f');
      if n > 0 && f.currentPosition <= n { CursorAfterShrink(g, s, f, t, f', n); }
    }
  }

  lemma NoneGained(g: Geometry, chain: seq<nat>, chain': seq<nat>, f: Handle)
    requires |chain'| <= |chain|
    ensures !Regained(g, chain, chain', f)
  {
  }

  lemma CursorAfterShrink(g: Geometry, s: Snap, f: Handle, t: Snap, f': Handle, n: nat)
    requires ValidAt(g, s, f) && CursorAt(g, s, f) && 0 < n < f.filesize && f.currentPosition <= n
    requires TruncateOutcome(g, s, f, t, f', n, 0)
    ensures g.BytesPerCluster() > 0
    ensures CursorAt(g, t, f') <==> !(f.currentPosition == n && n % g.BytesPerCluster() == 0 && !Due(g, f.rwPosition))
  {
    hide ByteOffset, WellFormed, Raw, FreeSet, Room, StandsAt, OthersKept, Phantom, Exactly;
    ResizedSize(g, s, f, t, f', n);
    FewerClustersIn(g, s, f, t, f', n);
    var c, c' := ChainOf(s, f.startCluster), ChainOf(t, f'.startCluster);
    var k: nat :| StandsAt(g, c, k, f.rwPosition, f.currentPosition);
    StartAndSize(g, s, f);
    InShorter(g, c, c', k, f.rwPosition, f.currentPosition, n);
  }

  /** A cursor of the longer chain is one of the shorter, exactly sized for n, unless it stands
      in the first cluster cut off. */
  lemma InShorter(g: Geometry, c: seq<nat>, c': seq<nat>, k: nat, pos: FilePosition, off: nat, n: nat)
    requires && g.Valid()
             && StandsAt(g, c, k, pos, off)
             && off <= n
             && 0 < n
             && c' <= c
             && Distinct(c)
             && Exactly(g, |c'|, n)
    ensures g.BytesPerCluster() > 0
    ensures Denotes(g, c', pos, off) <==> !(off == n && n % g.BytesPerCluster() == 0 && !Due(g, pos))
  {
    hide ByteOffset;
    BpcPositive(g);
    InsideCluster(g, c, k, pos, off);
    CurrentIndex(g, c, k, pos, off);
    var m, bpc := |c'|, g.BytesPerCluster();
    EmptyStart(g);
    OffsetMono(m, k, bpc);
    OffsetMono(k + 1, m, bpc);
    SplitOffset(g, n);
    OffsetDiv(n, bpc);
    if k < m {
      assert StandsAt(g, c', k, pos, off);
      if off == n && n % bpc == 0 && !Due(g, pos) {
        BoundaryIsFull(g, m, n);
        assert false;
      }
    } else {
      assert off == n == Start(g, m);
      MultipleOfSize(g, m);
      OffsetMono(m, k, bpc);
      OffsetMono(m, m + 1, bpc);
      OffsetMono(m + 1, k, bpc);
      assert k == m && !Due(g, pos);
      NotInShorter(g, c, c', k, pos, off);
    }
  }

  lemma NotInShorter(g: Geometry, c: seq<nat>, c': seq<nat>, k: nat, pos: FilePosition, off: nat)
    requires StandsAt(g, c, k, pos, off) && c' <= c && Distinct(c) && |c'| <= k
    ensures !Denotes(g, c', pos, off)
  {
    forall k': nat ensures !StandsAt(g, c', k', pos, off) {
      assert k' < |c'| ==> c[k'] != c[k];
    }
  }

  /** An exact size on a cluster boundary fills the last cluster. */
  lemma BoundaryIsFull(g: Geometry, m: nat, n: nat)
    requires g.Valid() && Exactly(g, m, n) && n > 0 && g.BytesPerCluster() > 0 && n % g.BytesPerCluster() == 0
    ensures n == Start(g, m)
  {
    hide ByteOffset;
    var bpc := g.BytesPerCluster();
    OffsetDiv(n, bpc);
    var q := n / bpc;
    OffsetMono(m, q, bpc);
    OffsetMono(q, m - 1, bpc);
    EmptyStart(g);
    if q > m { OffsetMono(m + 1, q, bpc); OffsetMono(m, m + 1, bpc); }
  }

  lemma MultipleOfSize(g: Geometry, m: nat)
    requires g.Valid()
    ensures g.BytesPerCluster() > 0 && Start(g, m) % g.BytesPerCluster() == 0
  {
    hide ByteOffset;
    BpcPositive(g);
    OffsetIs(m, g.BytesPerCluster());
    DivExact(m, g.BytesPerCluster());
  }

  /** For example: the position on the first cluster boundary, the cursor at the start of the
      second cluster as a seek leaves it, and the file cut to one cluster. */
  lemma CutAtCursor(g: Geometry, s: Snap, f: Handle, t: Snap, f': Handle)
    requires ValidAt(g, s, f) && |ChainOf(s, f.startCluster)| > 1 && f.currentPosition == g.BytesPerCluster()
    requires f.rwPosition == FilePosition(ChainOf(s, f.startCluster)[1], 0, 0)
    requires TruncateOutcome(g, s, f, t, f', g.BytesPerCluster(), 0)
    ensures CursorAt(g, s, f) && !CursorAt(g, t, f')
  {
    hide ByteOffset, WellFormed, Raw, FreeSet, Room, OthersKept, Phantom;
    var bpc, c := g.BytesPerCluster(), ChainOf(s, f.startCluster);
    BpcPositive(g);
    GeometryBounds(g);
    OffsetMono(0, 0, bpc);
    OffsetMono(0, 1, bpc);
    OffsetMono(1, |c| - 1, bpc);
    OffsetMono(0, 0, g.bytesPerSector);
    assert StandsAt(g, c, 1, f.rwPosition, bpc);
    MultipleOfSize(g, 1);
    CursorAfterTruncate(g, s, f, t, f', bpc);
  }

  /** For example: the file was cut below a cursor at the start of its second cluster, and growing
      it again takes that cluster again.  The cursor is right although the end passed the position. */
  lemma ClusterComesBack(g: Geometry, s: Snap, f: Handle, t: Snap, f1: Handle, u: Snap, f': Handle)
    requires ValidAt(g, s, f) && |ChainOf(s, f.startCluster)| == 2 && f.currentPosition == g.BytesPerCluster() > 1
    requires f.rwPosition == FilePosition(ChainOf(s, f.startCluster)[1], 0, 0)
    requires TruncateOutcome(g, s, f, t, f1, 1, 0) && TruncateOutcome(g, t, f1, u, f', f.filesize, 0)
    requires ChainOf(u, f'.startCluster) == ChainOf(s, f.startCluster)
    ensures !Anchored(t, f1) && !CursorSafe(g, t, f1, f.filesize) && CursorAt(g, u, f')
  {
    hide ByteOffset, WellFormed, Raw, FreeSet, Room, OthersKept, Phantom;
    var bpc, c := g.BytesPerCluster(), ChainOf(s, f.startCluster);
    GeometryBounds(g);
    OffsetMono(0, 0, bpc);
    OffsetMono(0, 1, bpc);
    OffsetMono(0, 0, g.bytesPerSector);
    assert StandsAt(g, c, 1, f.rwPosition, bpc);
    ResizedSize(g, s, f, t, f1, 1);
    ResizedSize(g, t, f1, u, f', f.filesize);
    FewerClustersIn(g, s, f, t, f1, 1);
    EmptyStart(g);
    OffsetMono(1, |ChainOf(t, f1.startCluster)| - 1, bpc);
    assert ChainOf(t, f1.startCluster) == c[..1];
    ChainUsable(g, s, f.startCluster);
  }

  // ---- reading after a seek ----

  /** After a seek a read is never a misread, wherever the seek went. */
  lemma SeekThenRead(g: Geometry, s: Snap, f: Handle, f': Handle, p: nat, len: nat)
    requires ValidAt(g, s, f) && Sought(g, s, f, f', p)
    ensures !Misread(g, f', len)
  {
    hide ByteOffset, WellFormed, StandsAt, Exactly;
    StartAndSize(g, s, f);
    if p < f.filesize {
      SplitOffset(g, p);
      LandingIndex(g, |s.fs.chains[f.startCluster]|, p);
    }
  }

  /** A misread for example: a seek to the end of a file that fills its clusters, a stretch by one
      byte, and a read of that byte. */
  lemma StretchThenRead(g: Geometry, s: Snap, f: Handle, f1: Handle, t: Snap, f': Handle)
    requires ValidAt(g, s, f) && CursorAt(g, s, f) && f.startCluster != CLUSTER_FREE
    requires f.filesize == Start(g, |ChainOf(s, f.startCluster)|) && 1 < g.bytesPerSector
    requires Sought(g, s, f, f1, f.filesize) && TruncateOutcome(g, s, f1, t, f', f.filesize + 1, 0)
    ensures ValidAt(g, t, f') && CursorAt(g, t, f') && Misread(g, f', 1)
  {
    hide ByteOffset, WellFormed, StandsAt, Exactly, Raw, FreeSet, Room, OthersKept, Phantom;
    SoughtCursor(g, s, f, f1, f.filesize);
    ResizedSize(g, s, f1, t, f', f.filesize + 1);
    CursorAfterTruncate(g, s, f1, t, f', f.filesize + 1);
  }
}
