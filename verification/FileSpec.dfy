/** What a file operation may do to a volume, said on values. */
module FileSpec {
  import opened Bytes
  import opened Pages
  import opened Layout
  import opened Chains
  import opened Recency
  import opened Fat
  import opened FileBytes

  const FILE_MAX_SIZE: nat := 0xFFFF_FFFF

  /** m clusters hold n bytes with no cluster to spare. */
  ghost predicate Exactly(g: Geometry, m: nat, n: nat) {
    n <= Start(g, m) && (m > 0 ==> Start(g, m - 1) < n)
  }

  /** That is m = ceil(n / bytesPerCluster). */
  lemma ExactlyIsCeiling(g: Geometry, m: nat, n: nat)
    requires g.Valid()
    ensures g.BytesPerCluster() > 0
    ensures Exactly(g, m, n) <==> m == (n + g.BytesPerCluster() - 1) / g.BytesPerCluster()
  {
    hide ByteOffset;
    SplitOffset(g, n);
    var bpc := g.BytesPerCluster();
    var c := (n + bpc - 1) / bpc;
    OffsetDiv(n + bpc - 1, bpc);
    if c > 0 { OffsetMono(c - 1, c, bpc); }
    OffsetMono(0, 0, bpc);
    assert Exactly(g, c, n);
    if m > 0 { OffsetMono(c, m - 1, bpc); }
    if c > 0 { OffsetMono(m, c - 1, bpc); }
  }

  lemma DivExact(n: nat, m: nat)
    requires m > 0
    ensures n * m / m == n && 0 <= n * m
  {
    MulMono(n, 0, m);
    DivBounds(n * m, m);
    var q := n * m / m;
    MultiplesApart(q, n, m);
    MultiplesApart(n, q, m);
  }

  lemma SameStart(g: Geometry, a: nat, b: nat)
    requires g.Valid() && Start(g, a) == Start(g, b)
    ensures a == b
  {
    hide ByteOffset;
    GeometryBounds(g);
    OffsetMono(1, g.sectorsPerCluster, g.bytesPerSector);
    OffsetMono(0, 0, g.bytesPerSector);
    OffsetMono(a, 0, g.BytesPerCluster());
    OffsetMono(b, 0, g.BytesPerCluster());
    OffsetMono(a + 1, b, g.BytesPerCluster());
    OffsetMono(b + 1, a, g.BytesPerCluster());
  }

  lemma SameRemainder(g: Geometry, off: nat)
    requires g.Valid() && g.BytesPerCluster() > 0
    ensures off % g.bytesPerSector == off % g.BytesPerCluster() % g.bytesPerSector
  {
    hide ByteOffset;
    SplitOffset(g, off);
    OffsetDiv(off, g.BytesPerCluster());
    OffsetDiv(off % g.BytesPerCluster(), g.bytesPerSector);
  }

  /** The code's position of the end of a file: in the last cluster, unless that is full. */
  lemma EndOfFile(g: Geometry, chain: seq<nat>, size: nat, pos: FilePosition)
    requires g.Valid() && chain != [] && (Exactly(g, |chain|, size) || (size == 0 && |chain| == 1))
    requires g.BytesPerCluster() > 0
    requires pos.cluster == chain[|chain| - 1]
    requires pos.sector == size % g.BytesPerCluster() / g.bytesPerSector && pos.byte == size % g.bytesPerSector
    ensures size > 0 && pos.sector == 0 == pos.byte ==>
              StandsAt(g, chain, |chain| - 1, FilePosition(pos.cluster, g.sectorsPerCluster, 0), size)
    ensures !(size > 0 && pos.sector == 0 == pos.byte) ==> StandsAt(g, chain, |chain| - 1, pos, size) && !Due(g, pos)
    ensures size % g.BytesPerCluster() == 0 <==> pos.sector == 0 == pos.byte
    ensures size <= Start(g, |chain|)
  {
    hide ByteOffset;
    var bpc, n, q := g.BytesPerCluster(), |chain|, size / g.BytesPerCluster();
    GeometryBounds(g);
    SplitOffset(g, size);
    OffsetDiv(size, bpc);
    OffsetDiv(size % bpc, g.bytesPerSector);
    OffsetMono(0, 0, bpc);
    OffsetMono(0, 0, g.bytesPerSector);
    OffsetMono(n - 1, n, bpc);
    OffsetMono(q + 1, n - 1, bpc);
    OffsetMono(n, q, bpc);
    OffsetMono(n + 1, q, bpc);
    SameRemainder(g, size);
    if size > 0 && pos.sector == 0 == pos.byte {
      SameStart(g, q, if q < n then q else n);
    }
  }

  /** The chains of a well-formed table are usable as files. */
  lemma ChainUsable(g: Geometry, s: Snap, h: nat)
    requires g.Valid() && |s.view| == ByteOffset(g.endOfPartition, g.bytesPerSector)
    requires |s.fs.links| == g.lastCluster + 2 && WellFormed(s.fs.links, s.fs.chains) && h in s.fs.chains
    ensures Usable(g, s.view, s.fs.chains[h]) && Distinct(s.fs.chains[h])
    ensures s.fs.chains[h] != [] && s.fs.chains[h][0] == h
  {
  }

  /** From s to t only chain h changed, by growing at its end. */
  ghost predicate Grown(s: FatState, t: FatState, h: nat) {
    && h in s.chains && h in t.chains && s.chains[h] <= t.chains[h]
    && t.chains == s.chains[h := t.chains[h]]
    && FreeCount(t.links) + |t.chains[h]| == FreeCount(s.links) + |s.chains[h]|
    && (s.count == FreeCount(s.links) ==> t.count == FreeCount(t.links))
  }

  lemma GrownRefl(s: FatState, h: nat)
    requires h in s.chains
    ensures Grown(s, s, h)
  {
    assert s.chains[h := s.chains[h]] == s.chains;
  }

  lemma GrownTrans(s: FatState, t: FatState, u: FatState, h: nat)
    requires Grown(s, t, h) && Grown(t, u, h)
    ensures Grown(s, u, h)
  {
  }

  lemma GrownByAlloc(g: Geometry, s: FatState, t: FatState, cluster: nat, h: nat, r: nat)
    requires && Allocated(g, s, t, cluster, h, r)
             && cluster != CLUSTER_FREE
             && !Phantom(s.links, s.hint)
             && r != CLUSTER_ERROR
    ensures Grown(s, t, h) && t.chains[h] == s.chains[h] + [r] && !Phantom(t.links, t.hint)
    ensures InRange(s.links, r)
  {
  }

  /** A file whose first |raw0| bytes were raw0 got d at offset `at`.  Bytes behind d that
      belonged to the file (of the given size) are as before. */
  ghost predicate Wrote(raw0: seq<byte>, raw: seq<byte>, at: nat, d: seq<byte>, size: nat) {
    && at <= |raw0| <= |raw| && at + |d| <= |raw|
    && raw[..at] == raw0[..at]
    && raw[at..at + |d|] == d
    && forall i :: at + |d| <= i < size && i < |raw0| ==> raw[i] == raw0[i]
  }

  lemma WroteNothing(raw: seq<byte>, at: nat, size: nat)
    requires at <= |raw|
    ensures Wrote(raw, raw, at, [], size)
  {
  }

  lemma WroteGrow(raw0: seq<byte>, raw: seq<byte>, at: nat, d: seq<byte>, size: nat, more: seq<byte>)
    requires Wrote(raw0, raw, at, d, size)
    ensures Wrote(raw0, raw + more, at, d, size)
  {
    var raw' := raw + more;
    assert raw'[..at] == raw[..at];
    assert raw'[at..at + |d|] == raw[at..at + |d|];
  }

  /** The next bytes e follow d; whatever `pad` overwrites behind them is beyond the file. */
  lemma WroteMore(raw0: seq<byte>, raw: seq<byte>, at: nat, d: seq<byte>, size: nat, e: seq<byte>, pad: seq<byte>)
    requires Wrote(raw0, raw, at, d, size) && at + |d| + |e + pad| <= |raw|
    requires pad == [] || size <= at + |d| + |e|
    ensures Wrote(raw0, Splice(raw, at + |d|, e + pad), at, d + e, size)
  {
    var raw' := Splice(raw, at + |d|, e + pad);
    assert raw'[..at] == raw[..at];
    forall i | 0 <= i < |d + e| ensures raw'[at + i] == (d + e)[i] {
      if i < |d| {
        assert raw[at..at + |d|][i] == d[i];
      } else {
        assert raw'[at + i] == (e + pad)[i - |d|];
      }
    }
    assert raw'[at..at + |d + e|] == d + e;
  }

  ghost predicate SnapOk(g: Geometry, s: Snap) {
    && g.Valid() && |s.view| == ByteOffset(g.endOfPartition, g.bytesPerSector)
    && |s.fs.links| == g.lastCluster + 2 && WellFormed(s.fs.links, s.fs.chains)
    && DataFrom(g) <= |s.view|
  }

  ghost function FileRaw(g: Geometry, s: Snap, h: nat): seq<byte>
    requires SnapOk(g, s) && h in s.fs.chains
  {
    ChainUsable(g, s, h);
    Raw(g, s.view, s.fs.chains[h])
  }

  lemma FileIs(g: Geometry, s: Snap, h: nat)
    requires SnapOk(g, s) && h in s.fs.chains
    ensures Usable(g, s.view, s.fs.chains[h]) && FileRaw(g, s, h) == Raw(g, s.view, s.fs.chains[h])
    ensures |FileRaw(g, s, h)| == Start(g, |s.fs.chains[h]|)
  {
    ChainUsable(g, s, h);
  }

  /** A write under way: from s to t chain h only grew, only its clusters changed, and they
      carry the bytes d written so far. */
  ghost predicate Progress(g: Geometry, s: Snap, t: Snap, h: nat, at: nat, d: seq<byte>, size: nat) {
    && SnapOk(g, s) && SnapOk(g, t) && Grown(s.fs, t.fs, h)
    && OnlyIn(g, s.view, t.view, t.fs.chains[h])
    && Wrote(FileRaw(g, s, h), FileRaw(g, t, h), at, d, size)
  }

  lemma ProgressStart(g: Geometry, s: Snap, h: nat, at: nat, size: nat)
    requires SnapOk(g, s) && h in s.fs.chains && at <= Start(g, |s.fs.chains[h]|)
    ensures Progress(g, s, s, h, at, [], size)
  {
    hide Raw;
    ChainUsable(g, s, h);
    WroteNothing(FileRaw(g, s, h), at, size);
  }

  /** Growing the chain loses nothing. */
  lemma ProgressGrow(g: Geometry, s: Snap, t: Snap, u: Snap, h: nat, at: nat, d: seq<byte>, size: nat)
    requires Progress(g, s, t, h, at, d, size) && SnapOk(g, u) && Grown(t.fs, u.fs, h) && SameData(g, t.view, u.view)
    ensures Progress(g, s, u, h, at, d, size)
  {
    hide Raw, ByteOffset, WellFormed, Wrote, OnlyIn;
    GrowRaw(g, t, u, h);
    GrownTrans(s.fs, t.fs, u.fs, h);
    WroteGrow(FileRaw(g, s, h), FileRaw(g, t, h), at, d, size, FileRaw(g, u, h)[|FileRaw(g, t, h)|..]);
    OnlyInTrans(g, s.view, t.view, u.view, t.fs.chains[h], u.fs.chains[h]);
  }

  lemma GrowRaw(g: Geometry, t: Snap, u: Snap, h: nat)
    requires SnapOk(g, t) && SnapOk(g, u) && Grown(t.fs, u.fs, h) && SameData(g, t.view, u.view)
    ensures |FileRaw(g, t, h)| <= |FileRaw(g, u, h)|
    ensures FileRaw(g, u, h) == FileRaw(g, t, h) + FileRaw(g, u, h)[|FileRaw(g, t, h)|..]
    ensures t.fs.chains[h] <= u.fs.chains[h] && h in u.fs.chains
    ensures OnlyIn(g, t.view, u.view, u.fs.chains[h])
  {
    hide Raw, ByteOffset, WellFormed;
    ChainUsable(g, t, h);
    ChainUsable(g, u, h);
    RawSameData(g, t.view, u.view, t.fs.chains[h]);
    RawSameData(g, t.view, u.view, u.fs.chains[h]);
    RawPrefix(g, u.view, t.fs.chains[h], u.fs.chains[h]);
  }

  lemma RawPrefix(g: Geometry, view: seq<byte>, a: seq<nat>, b: seq<nat>)
    requires Usable(g, view, a) && Usable(g, view, b) && a <= b
    ensures |Raw(g, view, a)| <= |Raw(g, view, b)|
    ensures Raw(g, view, b)[..|Raw(g, view, a)|] == Raw(g, view, a)
    decreases |b|
  {
    hide ByteOffset;
    if |a| < |b| {
      RawPrefix(g, view, a, b[..|b| - 1]);
      OffsetMono(|b| - 1, |b|, g.BytesPerCluster());
    } else {
      assert a == b;
    }
  }

  /** One write into m neighbouring clusters of the chain. */
  lemma ProgressStore(g: Geometry, s: Snap, t: Snap, u: Snap, h: nat, at: nat, d: seq<byte>, size: nat,
                      k: nat, m: nat, off: nat, e: seq<byte>, pad: seq<byte>)
    requires Progress(g, s, t, h, at, d, size) && 0 < m && SideBySide(t.fs.chains[h], k, m)
    requires Start(g, k) + off == at + |d| && off + |e + pad| <= Start(g, m)
    requires g.ClusterAddr(t.fs.chains[h][k]) + off + |e + pad| <= |t.view|
    requires u.fs == t.fs && u.view == Splice(t.view, g.ClusterAddr(t.fs.chains[h][k]) + off, e + pad)
    requires pad == [] || size <= at + |d| + |e|
    ensures Progress(g, s, u, h, at, d + e, size)
  {
    hide Raw, ByteOffset, WellFormed, Wrote, OnlyIn, Usable, SideBySide, FreeCount, Splice, FileRaw;
    var chain := t.fs.chains[h];
    ChainUsable(g, t, h);
    FileIs(g, t, h);
    FileIs(g, u, h);
    RawWrite(g, t.view, chain, k, m, off, e + pad);
    WriteOnlyIn(g, t.view, chain, k, m, off, e + pad);
    OnlyInTrans(g, s.view, t.view, u.view, chain, chain);
    WroteMore(FileRaw(g, s, h), FileRaw(g, t, h), at, d, size, e, pad);
  }

  /** A request: from state `from` on, write `data` at offset `at` of chain h; the file then has `size` bytes. */
  datatype Request = Request(from: Snap, h: nat, at: nat, size: nat, data: seq<byte>)

  /** In the middle of a request: `rest` is still to be written and the cursor stands where it
      goes.  No cluster was taken that the request does not need. */
  ghost predicate Underway(g: Geometry, w: Request, t: Snap, rest: seq<byte>, pos: FilePosition, k: nat) {
    var n := |w.data| - |rest|;
    && SnapOk(g, t) && w.h in t.fs.chains && w.h in w.from.fs.chains
    && 0 <= n && rest == w.data[n..]
    && Progress(g, w.from, t, w.h, w.at, w.data[..n], w.size)
    && StandsAt(g, t.fs.chains[w.h], k, pos, w.at + n)
    && (|t.fs.chains[w.h]| == |w.from.fs.chains[w.h]| || Start(g, |t.fs.chains[w.h]| - 1) < w.at + |w.data|)
  }

  /** Without an error the search hint is sound; after one the disc is full and every byte of
      the chain is used. */
  ghost predicate Writing(g: Geometry, w: Request, t: Snap, rest: seq<byte>, flag: bool, pos: FilePosition, k: nat) {
    && Underway(g, w, t, rest, pos, k)
    && (flag ==> !Phantom(t.fs.links, t.fs.hint))
    && (!flag ==> FreeSet(t.fs.links) == {} && w.at + |w.data| - |rest| == Start(g, |t.fs.chains[w.h]|) && rest != [])
  }

  /** A store of the next n bytes into m neighbouring clusters, with the cursor moved behind them. */
  lemma WritingStore(g: Geometry, w: Request, t: Snap, u: Snap, rest: seq<byte>, pos: FilePosition, k0: nat,
                     k: nat, m: nat, off: nat, n: nat, pad: seq<byte>, pos': FilePosition, k': nat)
    requires Underway(g, w, t, rest, pos, k0) && 0 < m && SideBySide(t.fs.chains[w.h], k, m) && n <= |rest|
    requires w.at + |w.data| - |rest| == Start(g, k) + off && off + n + |pad| <= Start(g, m)
    requires g.ClusterAddr(t.fs.chains[w.h][k]) + off + n + |pad| <= |t.view|
    requires u.fs == t.fs && u.view == Splice(t.view, g.ClusterAddr(t.fs.chains[w.h][k]) + off, rest[..n] + pad)
    requires pad == [] || (n == |rest| && w.size <= w.at + |w.data|)
    requires StandsAt(g, t.fs.chains[w.h], k', pos', w.at + |w.data| - |rest| + n)
    ensures Underway(g, w, u, rest[n..], pos', k')
  {
    hide Raw, ByteOffset, WellFormed, Progress, StandsAt, SideBySide, Splice, FreeSet;
    var done := |w.data| - |rest|;
    ProgressStore(g, w.from, t, u, w.h, w.at, w.data[..done], w.size, k, m, off, rest[..n], pad);
    assert w.data[..done] + rest[..n] == w.data[..done + n];
    assert rest[n..] == w.data[done + n..];
  }

  /** A step that only grows the chain, taking at most one cluster, at an offset inside the request. */
  lemma WritingGrow(g: Geometry, w: Request, t: Snap, u: Snap, rest: seq<byte>, pos: FilePosition, k: nat,
                    pos': FilePosition, k': nat, ahead: nat)
    requires Underway(g, w, t, rest, pos, k) && SnapOk(g, u) && Grown(t.fs, u.fs, w.h) && SameData(g, t.view, u.view)
    requires StandsAt(g, u.fs.chains[w.h], k', pos', w.at + |w.data| - |rest|)
    requires ahead < |rest|
    requires |u.fs.chains[w.h]| == |t.fs.chains[w.h]| ||
             (&& |u.fs.chains[w.h]| == |t.fs.chains[w.h]| + 1
              && w.at + |w.data| - |rest| + ahead == Start(g, |t.fs.chains[w.h]|))
    ensures Underway(g, w, u, rest, pos', k')
  {
    hide Raw, ByteOffset, WellFormed, Progress, StandsAt, SideBySide, Splice, FreeSet;
    ProgressGrow(g, w.from, t, u, w.h, w.at, w.data[..|w.data| - |rest|], w.size);
  }

  // ---- what a finished request means ----

  /** f with d written at offset p; a gap behind the end of f is filled with zeros. */
  function Overlay(f: seq<byte>, p: nat, d: seq<byte>): (r: seq<byte>)
    ensures |r| == if p + |d| <= |f| then |f| else p + |d|
  {
    (if p <= |f| then f[..p] else f + Zeros(p - |f|)) + d + (if p + |d| <= |f| then f[p + |d|..] else [])
  }

  /** Filling the gap first and writing then is the same. */
  lemma OverlayGap(f: seq<byte>, p: nat, d: seq<byte>)
    requires |f| <= p
    ensures Overlay(Overlay(f, |f|, Zeros(p - |f|)), p, d) == Overlay(f, p, d)
  {
    assert f[..|f|] == f;
  }

  function Max(a: nat, b: nat): nat {
    if a < b then b else a
  }

  /** The content of the file after a request that got as far as `rest`. */
  lemma WroteContent(raw0: seq<byte>, raw: seq<byte>, at: nat, d: seq<byte>, size: nat)
    requires Wrote(raw0, raw, at, d, size) && at <= size <= |raw0|
    ensures Max(size, at + |d|) <= |raw|
    ensures raw[..Max(size, at + |d|)] == Overlay(raw0[..size], at, d)
  {
    var r, o := raw[..Max(size, at + |d|)], Overlay(raw0[..size], at, d);
    forall i | 0 <= i < |r| ensures r[i] == o[i] {
      if i < at {
        assert raw[..at][i] == raw0[..at][i];
      } else if i < at + |d| {
        assert raw[at..at + |d|][i - at] == d[i - at];
      }
    }
  }

  /** The size of the chain behind a request: still exact. */
  lemma RequestExact(g: Geometry, w: Request, t: Snap, rest: seq<byte>, flag: bool, pos: FilePosition, k: nat)
    requires Writing(g, w, t, rest, flag, pos, k) && (flag ==> rest == []) && w.at <= w.size && w.data != []
    requires Exactly(g, |w.from.fs.chains[w.h]|, w.size) || (w.size == 0 && |w.from.fs.chains[w.h]| == 1)
    ensures Exactly(g, |t.fs.chains[w.h]|, Max(w.size, w.at + |w.data| - |rest|))
  {
    hide Raw, ByteOffset, WellFormed, FreeSet, Wrote;
    var m0, m, n := |w.from.fs.chains[w.h]|, |t.fs.chains[w.h]|, |w.data| - |rest|;
    ChainUsable(g, w.from, w.h);
    ChainUsable(g, t, w.h);
    GrownLonger(w.from.fs, t.fs, w.h);
    var bpc := g.BytesPerCluster();
    BpcPositive(g);
    OffsetMono(0, 0, bpc);
    OffsetMono(m0, m, bpc);
    OffsetMono(m - 1, m, bpc);
    assert w.at + n <= Start(g, m) by { CursorInChain(g, t.fs.chains[w.h], k, pos, w.at + n); }
    assert n == 0 ==> !flag;
  }

  lemma GrownLonger(s: FatState, t: FatState, h: nat)
    requires Grown(s, t, h)
    ensures |s.chains[h]| <= |t.chains[h]|
  {
  }

  lemma BpcPositive(g: Geometry)
    requires g.Valid()
    ensures 0 < g.bytesPerSector <= g.BytesPerCluster()
  {
    hide ByteOffset;
    OffsetMono(1, g.sectorsPerCluster, g.bytesPerSector);
    OffsetMono(0, 0, g.bytesPerSector);
  }

  lemma CursorInChain(g: Geometry, chain: seq<nat>, k: nat, pos: FilePosition, off: nat)
    requires g.Valid() && StandsAt(g, chain, k, pos, off)
    ensures off <= Start(g, |chain|)
  {
    InsideCluster(g, chain, k, pos, off);
  }

  /** The bytes a file of m clusters can have: its own clusters and all free ones. */
  ghost function Room(g: Geometry, links: seq<nat>, m: nat): nat {
    Start(g, FreeCount(links) + m)
  }

  /** A request is carried out in full exactly when there is room for it. */
  lemma RequestRoom(g: Geometry, w: Request, t: Snap, rest: seq<byte>, flag: bool, pos: FilePosition, k: nat)
    requires Writing(g, w, t, rest, flag, pos, k) && (flag ==> rest == [])
    ensures rest == [] <==> w.at + |w.data| <= Room(g, w.from.fs.links, |w.from.fs.chains[w.h]|)
    ensures Room(g, t.fs.links, |t.fs.chains[w.h]|) == Room(g, w.from.fs.links, |w.from.fs.chains[w.h]|)
  {
    hide Raw, ByteOffset, WellFormed, Wrote, OnlyIn, FreeSet, StandsAt;
    var m, free := |t.fs.chains[w.h]|, FreeCount(t.fs.links);
    assert free + m == FreeCount(w.from.fs.links) + |w.from.fs.chains[w.h]|;
    CursorInChain(g, t.fs.chains[w.h], k, pos, w.at + |w.data| - |rest|);
    OffsetMono(m, free + m, g.BytesPerCluster());
    assert FreeSet(t.fs.links) == {} ==> free == 0;
  }

  /** All files but one, and all that lies outside the table in use and the clusters, are as before. */
  ghost predicate OthersKept(g: Geometry, s: Snap, t: Snap, h: nat) {
    && SnapOk(g, s) && SnapOk(g, t)
    && t.fs.chains - {h} == s.fs.chains - {h}
    && (forall k :: k in s.fs.chains && k != h ==> k in t.fs.chains && FileRaw(g, t, k) == FileRaw(g, s, k))
    && OutsideKept(g, s.view, t.view)
  }

  /** Nothing differs but the table in use and bytes of clusters: not the boot sector, not the other
      copies of the table, not the root directory area, not what lies behind the last cluster. */
  ghost predicate OutsideKept(g: Geometry, v: seq<byte>, v': seq<byte>) {
    && |v| == |v'|
    && forall a: nat {:trigger v'[a]} :: a < |v| && !InTable(g, a) && !InData(g, a) ==> v'[a] == v[a]
  }

  lemma RootAreaFits(g: Geometry)
    requires g.Valid()
    ensures DataFrom(g) <= ByteOffset(g.dataStart, g.bytesPerSector) <= ByteOffset(g.endOfPartition, g.bytesPerSector)
  {
    hide ByteOffset;
    GeometryBounds(g);
    OffsetMono(g.rootDirStart, g.dataStart, g.bytesPerSector);
    OffsetMono(g.dataStart, g.endOfPartition, g.bytesPerSector);
  }

  /** Changing chain h alone, in the table and on the data, keeps all others. */
  lemma KeepsOthers(g: Geometry, s: Snap, t: Snap, h: nat, chain: seq<nat>)
    requires SnapOk(g, s) && SnapOk(g, t) && t.fs.chains - {h} == s.fs.chains - {h}
    requires OnlyIn(g, s.view, t.view, chain)
    requires forall i :: 0 <= i < |chain| ==> g.IsValidCluster(chain[i])
    requires forall k, c {:trigger c in s.fs.chains[k]} :: k in s.fs.chains && k != h && c in s.fs.chains[k] ==>
               c !in chain
    ensures OthersKept(g, s, t, h)
  {
    hide Raw, ByteOffset, WellFormed, OnlyIn;
    forall k | k in s.fs.chains && k != h ensures k in t.fs.chains && FileRaw(g, t, k) == FileRaw(g, s, k) {
      assert k in s.fs.chains - {h} && (s.fs.chains - {h})[k] == s.fs.chains[k];
      assert k in t.fs.chains - {h} && (t.fs.chains - {h})[k] == t.fs.chains[k];
      ChainUsable(g, s, k);
      ChainUsable(g, t, k);
      OtherRawKept(g, s.view, t.view, chain, s.fs.chains[k]);
    }
    RootAreaFits(g);
    OutsideClusters(g, s.view, t.view, chain);
  }

  lemma OutsideClusters(g: Geometry, v: seq<byte>, v': seq<byte>, chain: seq<nat>)
    requires g.Valid() && OnlyIn(g, v, v', chain) && forall i :: 0 <= i < |chain| ==> g.IsValidCluster(chain[i])
    ensures OutsideKept(g, v, v')
  {
    hide ByteOffset, Geometry.Valid, InTable, InData;
    forall a: nat | a < |v| && !InTable(g, a) && !InData(g, a) ensures v'[a] == v[a] {
      if InClusters(g, chain, a) {
        var i :| 0 <= i < |chain| && g.ClusterAddr(chain[i]) <= a < g.ClusterAddr(chain[i]) + g.BytesPerCluster();
        ClusterInData(g, chain[i], a);
      }
    }
  }

  /** A finished or broken-off request keeps all other files. */
  lemma RequestKeepsOthers(g: Geometry, s: Snap, t: Snap, h: nat)
    requires SnapOk(g, s) && SnapOk(g, t) && Grown(s.fs, t.fs, h) && OnlyIn(g, s.view, t.view, t.fs.chains[h])
    ensures OthersKept(g, s, t, h)
  {
    hide Raw, ByteOffset, WellFormed, OnlyIn, FreeCount;
    ChainUsable(g, t, h);
    ChainInRange(t.fs.links, t.fs.chains, h);
    forall k, c {:trigger c in s.fs.chains[k]} | k in s.fs.chains && k != h && c in s.fs.chains[k]
      ensures c !in t.fs.chains[h]
    {
      assert t.fs.chains[k] == s.fs.chains[k];
    }
    KeepsOthers(g, s, t, h, t.fs.chains[h]);
  }

  lemma OthersKeptTrans(g: Geometry, s: Snap, t: Snap, u: Snap, h: nat)
    requires OthersKept(g, s, t, h) && OthersKept(g, t, u, h)
    ensures OthersKept(g, s, u, h)
  {
    hide Raw, ByteOffset, WellFormed;
  }

  /** From s to t the file at chain h, `size` bytes long, was overlaid with d at offset `at`;
      its chain is exactly as long as it has to be, and nothing else changed. */
  ghost predicate FileStep(g: Geometry, s: Snap, t: Snap, h: nat, size: nat, at: nat, d: seq<byte>) {
    && OthersKept(g, s, t, h) && h in s.fs.chains && h in t.fs.chains
    && size <= |FileRaw(g, s, h)| && Max(size, at + |d|) <= |FileRaw(g, t, h)|
    && FileRaw(g, t, h)[..Max(size, at + |d|)] == Overlay(FileRaw(g, s, h)[..size], at, d)
    && Exactly(g, |t.fs.chains[h]|, Max(size, at + |d|))
    && s.fs.chains[h] <= t.fs.chains[h]
    && Room(g, t.fs.links, |t.fs.chains[h]|) == Room(g, s.fs.links, |s.fs.chains[h]|)
    && (s.fs.count == FreeCount(s.fs.links) ==> t.fs.count == FreeCount(t.fs.links))
  }

  lemma RequestStep(g: Geometry, w: Request, t: Snap, rest: seq<byte>, flag: bool, pos: FilePosition, k: nat)
    requires Writing(g, w, t, rest, flag, pos, k) && (flag ==> rest == []) && w.data != []
    requires Exactly(g, |w.from.fs.chains[w.h]|, w.size) || (w.size == 0 && |w.from.fs.chains[w.h]| == 1)
    requires w.at <= w.size <= |FileRaw(g, w.from, w.h)|
    ensures FileStep(g, w.from, t, w.h, w.size, w.at, w.data[..|w.data| - |rest|])
    ensures rest == [] <==> w.at + |w.data| <= Room(g, w.from.fs.links, |w.from.fs.chains[w.h]|)
    ensures rest != [] ==> FreeSet(t.fs.links) == {}
    ensures rest == [] ==> !Phantom(t.fs.links, t.fs.hint)
  {
    hide Raw, ByteOffset, WellFormed, FreeSet, Wrote, OnlyIn, Overlay, StandsAt, OthersKept, Exactly;
    RequestExact(g, w, t, rest, flag, pos, k);
    RequestRoom(g, w, t, rest, flag, pos, k);
    RequestKeepsOthers(g, w.from, t, w.h);
    WroteContent(FileRaw(g, w.from, w.h), FileRaw(g, t, w.h), w.at, w.data[..|w.data| - |rest|], w.size);
    GrownPrefix(w.from.fs, t.fs, w.h);
  }

  lemma GrownPrefix(s: FatState, t: FatState, h: nat)
    requires Grown(s, t, h)
    ensures h in s.chains && h in t.chains && s.chains[h] <= t.chains[h]
  {
  }

  /** A step that only touched bytes behind the end leaves the content alone. */
  lemma BehindTheEnd(g: Geometry, s: Snap, t: Snap, h: nat, size: nat, d: seq<byte>)
    requires FileStep(g, s, t, h, size, size, d)
    ensures size <= |FileRaw(g, t, h)| && FileRaw(g, t, h)[..size] == FileRaw(g, s, h)[..size]
  {
    var r := FileRaw(g, t, h);
    assert r[..size] == r[..Max(size, size + |d|)][..size];
    assert Overlay(FileRaw(g, s, h)[..size], size, d)[..size] == FileRaw(g, s, h)[..size];
  }

  /** Filling the gap up to p and then writing there is one step. */
  lemma GapThenWrite(g: Geometry, s: Snap, t: Snap, u: Snap, h: nat, size: nat, p: nat, d: seq<byte>)
    requires size <= p && FileStep(g, s, t, h, size, size, Zeros(p - size)) && FileStep(g, t, u, h, p, p, d)
    ensures FileStep(g, s, u, h, size, p, d)
  {
    hide Raw, ByteOffset, WellFormed, FreeSet, Exactly, Overlay, FreeCount;
    OthersKeptTrans(g, s, t, u, h);
    OverlayGap(FileRaw(g, s, h)[..size], p, d);
  }

  // ---- giving an empty file its first cluster ----

  ghost function ChainOf(s: Snap, start: nat): seq<nat> {
    if start in s.fs.chains then s.fs.chains[start] else []
  }

  /** From s to t one free cluster became a chain of its own. */
  ghost predicate FirstTaken(g: Geometry, s: Snap, t: Snap, c: nat) {
    && SnapOk(g, s) && SnapOk(g, t) && c !in s.fs.chains && t.fs.chains == s.fs.chains[c := [c]]
    && SameData(g, s.view, t.view)
    && FreeCount(s.fs.links) == FreeCount(t.fs.links) + 1
    && (s.fs.count == FreeCount(s.fs.links) ==> t.fs.count == FreeCount(t.fs.links))
  }

  lemma FirstTakenByAlloc(g: Geometry, s: Snap, t: Snap, c: nat)
    requires SnapOk(g, s) && SnapOk(g, t) && !Phantom(s.fs.links, s.fs.hint) && SameData(g, s.view, t.view)
    requires Allocated(g, s.fs, t.fs, CLUSTER_FREE, 0, c)
    ensures c != CLUSTER_ERROR ==> g.IsValidCluster(c) && FirstTaken(g, s, t, c) && !Phantom(t.fs.links, t.fs.hint)
    ensures c == CLUSTER_ERROR ==>
              && FreeSet(s.fs.links) == {}
              && t.fs.chains == s.fs.chains
              && t.fs.links == s.fs.links
              && t.fs.count == s.fs.count
  {
    hide ByteOffset, WellFormed, FreeSet;
  }

  lemma FirstKeepsOthers(g: Geometry, s: Snap, t: Snap, c: nat)
    requires FirstTaken(g, s, t, c)
    ensures OthersKept(g, s, t, c)
    ensures Room(g, t.fs.links, 1) == Room(g, s.fs.links, 0)
  {
    hide Raw, ByteOffset, WellFormed, FreeSet;
    RawSameData(g, s.view, t.view, []);
    assert t.fs.chains - {c} == s.fs.chains - {c};
    KeepsOthers(g, s, t, c, []);
  }
}
