/** A file as the bytes laid over a chain of clusters, and the cursor into it. */
module FileBytes {
  import opened Bytes
  import opened Pages
  import opened Layout
  import opened Recency

  /** Where the k-th cluster of a file starts in the file. */
  function Start(g: Geometry, k: nat): nat {
    ByteOffset(k, g.BytesPerCluster())
  }

  ghost predicate Usable(g: Geometry, view: seq<byte>, chain: seq<nat>) {
    && g.Valid() && |view| == ByteOffset(g.endOfPartition, g.bytesPerSector)
    && forall i :: 0 <= i < |chain| ==> g.IsValidCluster(chain[i])
  }

  ghost function ClusterBytes(g: Geometry, view: seq<byte>, c: nat): (b: seq<byte>)
    requires g.Valid() && |view| == ByteOffset(g.endOfPartition, g.bytesPerSector) && g.IsValidCluster(c)
    ensures |b| == g.BytesPerCluster()
  {
    ClusterPlace(g, c);
    view[g.ClusterAddr(c)..g.ClusterAddr(c) + g.BytesPerCluster()]
  }

  /** The bytes of all clusters of a chain, one after the other. */
  ghost function Raw(g: Geometry, view: seq<byte>, chain: seq<nat>): (r: seq<byte>)
    requires Usable(g, view, chain)
    ensures |r| == Start(g, |chain|)
  {
    var n := |chain|;
    OffsetMono(0, 0, g.BytesPerCluster());
    if n == 0 then [] else
      OffsetMono(n - 1, n, g.BytesPerCluster());
      Raw(g, view, chain[..n - 1]) + ClusterBytes(g, view, chain[n - 1])
  }

  lemma RawPush(g: Geometry, view: seq<byte>, chain: seq<nat>, c: nat)
    requires Usable(g, view, chain + [c])
    ensures Usable(g, view, chain) && g.IsValidCluster(c)
    ensures Raw(g, view, chain + [c]) == Raw(g, view, chain) + ClusterBytes(g, view, c)
  {
    hide ByteOffset, Geometry.Valid;
    var chain' := chain + [c];
    assert chain'[|chain|] == c && chain'[..|chain|] == chain;
    assert forall i :: 0 <= i < |chain| ==> chain'[i] == chain[i];
  }

  /** A stretch inside one cluster of the chain lies at that cluster on the volume. */
  lemma {:induction false} RawInCluster(g: Geometry, view: seq<byte>, chain: seq<nat>, k: nat, off: nat, n: nat)
    requires Usable(g, view, chain) && k < |chain| && off + n <= g.BytesPerCluster()
    ensures Start(g, k) + off + n <= |Raw(g, view, chain)|
    ensures g.ClusterAddr(chain[k]) + off + n <= |view|
    ensures Raw(g, view, chain)[Start(g, k) + off..Start(g, k) + off + n]
            == view[g.ClusterAddr(chain[k]) + off..g.ClusterAddr(chain[k]) + off + n]
  {
    hide ByteOffset, Geometry.Valid, Raw;
    var last := |chain| - 1;
    var before, c := chain[..last], chain[last];
    assert before + [c] == chain;
    RawPush(g, view, before, c);
    OffsetMono(k + 1, |chain|, g.BytesPerCluster());
    OffsetMono(k + 1, last, g.BytesPerCluster());
    OffsetMono(k, last, g.BytesPerCluster());
    ClusterPlace(g, chain[k]);
    var front, back := Raw(g, view, before), ClusterBytes(g, view, c);
    if k < last {
      RawInCluster(g, view, before, k, off, n);
      FrontSlice(front, back, Start(g, k) + off, Start(g, k) + off + n);
    } else {
      BackSlice(front, back, off, off + n);
      SliceOfSlice(view, g.ClusterAddr(c), g.ClusterAddr(c) + g.BytesPerCluster(), off, off + n);
    }
  }

  lemma FrontSlice(a: seq<byte>, b: seq<byte>, x: nat, y: nat)
    requires x <= y <= |a|
    ensures (a + b)[x..y] == a[x..y]
  {
  }

  lemma BackSlice(a: seq<byte>, b: seq<byte>, x: nat, y: nat)
    requires x <= y <= |b|
    ensures (a + b)[|a| + x..|a| + y] == b[x..y]
  {
  }

  lemma SliceOfSlice(s: seq<byte>, lo: nat, hi: nat, x: nat, y: nat)
    requires lo <= hi <= |s| && x <= y <= hi - lo
    ensures s[lo..hi][x..y] == s[lo + x..lo + y]
  {
    var a, b := s[lo..hi][x..y], s[lo + x..lo + y];
    forall i | 0 <= i < |a| ensures a[i] == b[i] { assert s[lo..hi][x + i] == s[lo + (x + i)]; }
  }

  /** m clusters from the k-th on lie side by side on the volume. */
  ghost predicate SideBySide(chain: seq<nat>, k: nat, m: nat) {
    k + m <= |chain| && forall q :: k <= q < k + m ==> chain[q] == chain[k] + (q - k)
  }

  /** Batching: a stretch of neighbouring clusters read in one go is that stretch of the file. */
  lemma RawInRun(g: Geometry, view: seq<byte>, chain: seq<nat>, k: nat, m: nat)
    requires Usable(g, view, chain) && 0 < m && SideBySide(chain, k, m)
    ensures Start(g, k) + Start(g, m) == Start(g, k + m) <= |Raw(g, view, chain)|
    ensures g.ClusterAddr(chain[k]) + Start(g, m) <= |view|
    ensures Raw(g, view, chain)[Start(g, k)..Start(g, k) + Start(g, m)]
            == view[g.ClusterAddr(chain[k])..g.ClusterAddr(chain[k]) + Start(g, m)]
  {
    hide ByteOffset, Geometry.Valid, Raw;
    var bpc, a, last := g.BytesPerCluster(), g.ClusterAddr(chain[k]), k + m - 1;
    OffsetAdd(k, m, bpc);
    OffsetAdd(k, m - 1, bpc);
    OffsetMono(m - 1, m, bpc);
    OffsetMono(k + m, |chain|, bpc);
    OffsetMono(0, 0, bpc);
    assert chain[last] == chain[k] + (m - 1);
    ClusterRun(g, chain[k], m - 1);
    RawInCluster(g, view, chain, last, 0, bpc);
    if m > 1 {
      RawInRun(g, view, chain, k, m - 1);
      Joined(Raw(g, view, chain), Start(g, k), Start(g, last), Start(g, k + m));
      Joined(view, a, a + Start(g, m - 1), a + Start(g, m));
    }
  }

  lemma ClusterRun(g: Geometry, c: nat, n: nat)
    requires g.Valid() && g.IsValidCluster(c)
    ensures g.ClusterAddr(c + n) == g.ClusterAddr(c) + Start(g, n)
  {
    ClusterDistance(g, c, n);
  }

  /** Every byte of a file is a byte of one of its clusters. */
  lemma Locate(g: Geometry, n: nat, i: nat) returns (q: nat, j: nat)
    requires g.Valid() && i < Start(g, n)
    ensures q < n && j < g.BytesPerCluster() && i == Start(g, q) + j
  {
    hide ByteOffset, Geometry.Valid;
    var bpc := g.BytesPerCluster();
    OffsetMono(0, 0, bpc);
    OffsetMono(n - 1, n, bpc);
    if i < Start(g, n - 1) {
      q, j := Locate(g, n - 1, i);
    } else {
      q, j := n - 1, i - Start(g, n - 1);
    }
  }

  lemma RawAt(g: Geometry, view: seq<byte>, chain: seq<nat>, q: nat, j: nat)
    requires Usable(g, view, chain) && q < |chain| && j < g.BytesPerCluster()
    ensures Start(g, q) + j < |Raw(g, view, chain)| && g.ClusterAddr(chain[q]) + j < |view|
    ensures Raw(g, view, chain)[Start(g, q) + j] == view[g.ClusterAddr(chain[q]) + j]
  {
    hide ByteOffset, Geometry.Valid, Raw;
    RawInCluster(g, view, chain, q, j, 1);
    assert Raw(g, view, chain)[Start(g, q) + j] == Raw(g, view, chain)[Start(g, q) + j..Start(g, q) + j + 1][0];
  }

  lemma RunCovers(chain: seq<nat>, k: nat, m: nat, x: nat)
    requires 0 < m && SideBySide(chain, k, m)
    ensures chain[k] <= x < chain[k] + m ==> exists i :: k <= i < k + m && chain[i] == x
  {
    if chain[k] <= x < chain[k] + m { assert chain[k + (x - chain[k])] == x; }
  }

  /** A cluster outside a run is not among its numbers. */
  lemma OutsideRun(chain: seq<nat>, k: nat, m: nat, q: nat)
    requires Distinct(chain) && SideBySide(chain, k, m) && 0 < m && q < |chain| && !(k <= q < k + m)
    ensures !(chain[k] <= chain[q] < chain[k] + m)
  {
    RunCovers(chain, k, m, chain[q]);
  }

  /** Where cluster q of the chain lies relative to a run of m clusters from the k-th on. */
  lemma RunPlace(g: Geometry, chain: seq<nat>, k: nat, m: nat, q: nat)
    requires g.Valid() && (forall i :: 0 <= i < |chain| ==> g.IsValidCluster(chain[i]))
    requires Distinct(chain) && SideBySide(chain, k, m) && 0 < m && q < |chain|
    ensures var a := g.ClusterAddr(chain[k]);
            var b := g.ClusterAddr(chain[q]);
            && (k <= q < k + m ==>
                  b == a + Start(g, q) - Start(g, k) && Start(g, q) + g.BytesPerCluster() <= Start(g, k) + Start(g, m))
            && (!(k <= q < k + m) ==> b + g.BytesPerCluster() <= a || a + Start(g, m) <= b)
            && (q < k ==> Start(g, q) + g.BytesPerCluster() <= Start(g, k))
            && (k + m <= q ==> Start(g, k) + Start(g, m) <= Start(g, q))
  {
    hide ByteOffset, Geometry.Valid;
    var bpc := g.BytesPerCluster();
    OffsetAdd(k, m, bpc);
    OffsetMono(q, q + 1, bpc);
    OffsetMono(q + 1, k, bpc);
    OffsetMono(q + 1, k + m, bpc);
    OffsetMono(k + m, q, bpc);
    if k <= q < k + m {
      OffsetAdd(k, q - k, bpc);
      ClusterRun(g, chain[k], q - k);
    } else {
      var c, d := chain[k], chain[q];
      OutsideRun(chain, k, m, q);
      if c < d {
        ClusterRun(g, c, d - c);
        OffsetMono(m, d - c, bpc);
      } else {
        ClusterRun(g, d, c - d);
        OffsetMono(1, c - d, bpc);
        OffsetMono(0, 1, bpc);
      }
    }
  }

  /** Overwriting bytes of a run of neighbouring clusters overwrites those bytes of the file. */
  lemma RawWrite(g: Geometry, view: seq<byte>, chain: seq<nat>, k: nat, m: nat, off: nat, d: seq<byte>)
    requires Usable(g, view, chain) && Distinct(chain) && 0 < m && SideBySide(chain, k, m)
    requires off + |d| <= Start(g, m) && g.ClusterAddr(chain[k]) + off + |d| <= |view|
    ensures Start(g, k) + off + |d| <= Start(g, |chain|)
    ensures Raw(g, Splice(view, g.ClusterAddr(chain[k]) + off, d), chain)
            == Splice(Raw(g, view, chain), Start(g, k) + off, d)
  {
    hide ByteOffset, Geometry.Valid, Raw;
    OffsetAdd(k, m, g.BytesPerCluster());
    OffsetMono(k + m, |chain|, g.BytesPerCluster());
    var at := g.ClusterAddr(chain[k]) + off;
    var view' := Splice(view, at, d);
    var r, r' := Raw(g, view, chain), Raw(g, view', chain);
    var s := Splice(r, Start(g, k) + off, d);
    forall i | 0 <= i < |r'| ensures r'[i] == s[i] {
      var q, j := Locate(g, |chain|, i);
      RunPlace(g, chain, k, m, q);
      RawAt(g, view, chain, q, j);
      RawAt(g, view', chain, q, j);
    }
  }

  /** Bytes in the clusters of a chain. */
  ghost predicate InClusters(g: Geometry, chain: seq<nat>, a: nat) {
    exists i :: 0 <= i < |chain| && g.ClusterAddr(chain[i]) <= a < g.ClusterAddr(chain[i]) + g.BytesPerCluster()
  }

  /** Behind the table nothing changed but clusters of this chain. */
  ghost predicate OnlyIn(g: Geometry, v: seq<byte>, v': seq<byte>, chain: seq<nat>) {
    && |v| == |v'| && SameSystem(g, v, v')
    && forall a: nat {:trigger v'[a]} ::
         ByteOffset(g.rootDirStart, g.bytesPerSector) <= a < |v| && !InClusters(g, chain, a) ==> v'[a] == v[a]
  }

  lemma WriteOnlyIn(g: Geometry, view: seq<byte>, chain: seq<nat>, k: nat, m: nat, off: nat, d: seq<byte>)
    requires Usable(g, view, chain) && 0 < m && SideBySide(chain, k, m)
    requires off + |d| <= Start(g, m) && g.ClusterAddr(chain[k]) + off + |d| <= |view|
    ensures OnlyIn(g, view, Splice(view, g.ClusterAddr(chain[k]) + off, d), chain)
  {
    hide ByteOffset, Geometry.Valid, InTable;
    var base := g.ClusterAddr(chain[k]);
    ClusterPlace(g, chain[k]);
    forall a: nat | base + off <= a < base + off + |d| ensures InClusters(g, chain, a) {
      var q, j := Locate(g, m, a - base);
      ClusterRun(g, chain[k], q);
      assert chain[k + q] == chain[k] + q;
    }
  }

  lemma InClustersGrows(g: Geometry, chain: seq<nat>, chain': seq<nat>, a: nat)
    requires chain <= chain'
    ensures InClusters(g, chain, a) ==> InClusters(g, chain', a)
  {
    if InClusters(g, chain, a) {
      var i :| 0 <= i < |chain| && g.ClusterAddr(chain[i]) <= a < g.ClusterAddr(chain[i]) + g.BytesPerCluster();
      assert chain'[i] == chain[i];
    }
  }

  lemma OnlyInTrans(g: Geometry, u: seq<byte>, v: seq<byte>, w: seq<byte>, chain: seq<nat>, chain': seq<nat>)
    requires OnlyIn(g, u, v, chain) && OnlyIn(g, v, w, chain') && chain <= chain'
    ensures OnlyIn(g, u, w, chain')
  {
    hide InTable, ByteOffset;
    SameSystemTrans(g, u, v, w);
    forall a: nat | ByteOffset(g.rootDirStart, g.bytesPerSector) <= a < |u| && !InClusters(g, chain', a)
      ensures w[a] == u[a]
    {
      InClustersGrows(g, chain, chain', a);
      assert v[a] == u[a];
    }
  }

  /** A chain that shares no cluster with the changed one keeps its bytes. */
  lemma OtherRawKept(g: Geometry, v: seq<byte>, v': seq<byte>, chain: seq<nat>, other: seq<nat>)
    requires Usable(g, v, chain) && Usable(g, v', other) && OnlyIn(g, v, v', chain)
    requires forall c :: c in chain ==> c !in other
    ensures Raw(g, v', other) == Raw(g, v, other)
  {
    hide ByteOffset, Geometry.Valid, Raw;
    forall i | 0 <= i < Start(g, |other|) ensures Raw(g, v', other)[i] == Raw(g, v, other)[i] {
      var q, j := Locate(g, |other|, i);
      RawAt(g, v, other, q, j);
      RawAt(g, v', other, q, j);
      var a := g.ClusterAddr(other[q]) + j;
      ClusterPlace(g, other[q]);
      if InClusters(g, chain, a) {
        var p :| 0 <= p < |chain| && g.ClusterAddr(chain[p]) <= a < g.ClusterAddr(chain[p]) + g.BytesPerCluster();
        assert chain[p] in chain && other[q] in other;
        ClustersApart(g, chain[p], other[q]);
      }
      assert v'[a] == v[a];
    }
  }

  /** Changing only the table keeps all files. */
  lemma RawSameData(g: Geometry, v: seq<byte>, v': seq<byte>, chain: seq<nat>)
    requires Usable(g, v, chain) && Usable(g, v', chain)
    requires ByteOffset(g.rootDirStart, g.bytesPerSector) <= |v| && SameSystem(g, v, v')
    requires v[ByteOffset(g.rootDirStart, g.bytesPerSector)..] == v'[ByteOffset(g.rootDirStart, g.bytesPerSector)..]
    ensures Raw(g, v', chain) == Raw(g, v, chain)
    ensures OnlyIn(g, v, v', chain)
  {
    hide ByteOffset, Geometry.Valid, Raw;
    var n := ByteOffset(g.rootDirStart, g.bytesPerSector);
    forall a: nat | n <= a < |v| ensures v'[a] == v[a] {
      assert v'[n..][a - n] == v[n..][a - n];
    }
    OtherRawKept(g, v, v', [], chain);
  }

  // ---- the cursor ----

  datatype FilePosition = FilePosition(cluster: nat, sector: nat, byte: nat)

  /** The cursor stands at offset off of the file, in its k-th cluster.  sector ==
      sectorsPerCluster is the special state "cluster full, the next one is due". */
  ghost predicate StandsAt(g: Geometry, chain: seq<nat>, k: nat, pos: FilePosition, off: nat) {
    && k < |chain| && pos.cluster == chain[k]
    && pos.sector <= g.sectorsPerCluster && pos.byte < g.bytesPerSector
    && (pos.sector == g.sectorsPerCluster ==> pos.byte == 0)
    && off == Start(g, k) + ByteOffset(pos.sector, g.bytesPerSector) + pos.byte
  }

  ghost predicate Denotes(g: Geometry, chain: seq<nat>, pos: FilePosition, off: nat) {
    exists k :: StandsAt(g, chain, k, pos, off)
  }

  predicate Due(g: Geometry, pos: FilePosition) {
    pos.sector == g.sectorsPerCluster
  }

  /** Between a due cluster's end and the next cluster's start there is no difference in the file. */
  lemma DueIsNextStart(g: Geometry, chain: seq<nat>, k: nat, pos: FilePosition, off: nat)
    requires g.Valid() && StandsAt(g, chain, k, pos, off) && Due(g, pos)
    ensures off == Start(g, k + 1)
    ensures k + 1 < |chain| ==> StandsAt(g, chain, k + 1, FilePosition(chain[k + 1], 0, 0), off)
  {
    hide ByteOffset;
    OffsetMono(k, 0, g.BytesPerCluster());
    OffsetMono(0, 0, g.bytesPerSector);
  }

  /** A position inside a cluster, with room behind it. */
  lemma InsideCluster(g: Geometry, chain: seq<nat>, k: nat, pos: FilePosition, off: nat)
    requires g.Valid() && StandsAt(g, chain, k, pos, off)
    ensures Start(g, k) <= off <= Start(g, k + 1) && Start(g, k + 1) == Start(g, k) + g.BytesPerCluster()
    ensures Due(g, pos) <==> off == Start(g, k + 1)
    ensures !Due(g, pos) ==>
              ByteOffset(pos.sector, g.bytesPerSector) + g.bytesPerSector <= g.BytesPerCluster()
    ensures Start(g, k + 1) <= Start(g, |chain|)
  {
    hide ByteOffset, Geometry.Valid;
    OffsetMono(k, k + 1, g.BytesPerCluster());
    OffsetMono(k + 1, |chain|, g.BytesPerCluster());
    OffsetMono(pos.sector, 0, g.bytesPerSector);
    OffsetMono(pos.sector + 1, g.sectorsPerCluster, g.bytesPerSector);
  }

  /** A cursor stays good when the chain grows behind it. */
  lemma AtGrows(g: Geometry, chain: seq<nat>, chain': seq<nat>, k: nat, pos: FilePosition, off: nat)
    requires StandsAt(g, chain, k, pos, off) && chain <= chain'
    ensures StandsAt(g, chain', k, pos, off)
  {
  }

  lemma DenotesGrows(g: Geometry, chain: seq<nat>, chain': seq<nat>, pos: FilePosition, off: nat)
    requires Denotes(g, chain, pos, off) && chain <= chain'
    ensures Denotes(g, chain', pos, off)
  {
    var k :| StandsAt(g, chain, k, pos, off);
    AtGrows(g, chain, chain', k, pos, off);
  }

  /** The place in the chain is determined by cluster, chain being without repetition. */
  lemma AtUnique(g: Geometry, chain: seq<nat>, pos: FilePosition, k: nat, off: nat, k': nat, off': nat)
    requires Distinct(chain) && StandsAt(g, chain, k, pos, off) && StandsAt(g, chain, k', pos, off')
    ensures k == k' && off == off'
  {
  }

  /** The sector and byte the code computes for an offset by division and remainder. */
  lemma SplitOffset(g: Geometry, off: nat)
    requires g.Valid()
    ensures g.BytesPerCluster() > 0
    ensures var q := off / g.BytesPerCluster();
            var s := off % g.BytesPerCluster() / g.bytesPerSector;
            && 0 <= q && 0 <= s < g.sectorsPerCluster && 0 <= off % g.bytesPerSector < g.bytesPerSector
            && off == Start(g, q) + ByteOffset(s, g.bytesPerSector) + off % g.bytesPerSector
            && Start(g, q) <= off < Start(g, q + 1)
  {
    hide ByteOffset;
    var spc, bps, bpc := g.sectorsPerCluster, g.bytesPerSector, g.BytesPerCluster();
    OffsetMono(0, spc, bps);
    OffsetMono(0, 0, bps);
    OffsetMono(1, spc, bps);
    OffsetDiv(off, bpc);
    var q, r := off / bpc, off % bpc;
    OffsetDiv(r, bps);
    var s, b := r / bps, r % bps;
    OffsetMono(spc, s, bps);
    OffsetMono(q, q + 1, bpc);
    MulMono(q, 0, spc);
    OffsetMul(q, spc, bps);
    OffsetIs(q, bpc);
    OffsetAdd(q * spc, s, bps);
    OffsetIs(q * spc + s, bps);
    ModUnique(off, q * spc + s, bps, b);
  }

  lemma OffsetDiv(x: nat, m: nat)
    requires m > 0
    ensures 0 <= x / m && x == ByteOffset(x / m, m) + x % m && 0 <= x % m < m
  {
    DivBounds(x, m);
  }
}
