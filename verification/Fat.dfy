/** The file allocation table of source/file_allocation_table.c, read and written through
    the sector cache. */
module Fat {
  import opened Bytes
  import opened Pages
  import opened Layout
  import opened FatEntries
  import opened Chains
  import opened Recency
  import opened SectorCache

  /** Two states of the volume that agree outside the table in use. */
  ghost predicate SameData(g: Geometry, v: seq<byte>, v': seq<byte>) {
    DataFrom(g) <= |v| == |v'| && v[DataFrom(g)..] == v'[DataFrom(g)..] && SameSystem(g, v, v')
  }

  /** The search for a free cluster reads the slot past the end first, and that slot reads
      free: after an unsuccessful search the hint points there. */
  ghost predicate Phantom(links: seq<nat>, hint: nat) {
    hint + 1 == |links| && links[hint] == CLUSTER_FREE
  }

  /** c is the first free cluster at or after the hint, or the first of all when none is
      free from the hint on. */
  ghost predicate FirstFrom(links: seq<nat>, hint: nat, c: nat) {
    && InRange(links, c) && links[c] == CLUSTER_FREE
    && (forall d :: 2 <= d < |links| - 1 && links[d] == CLUSTER_FREE ==>
          (hint <= c && (d < hint || c <= d)) || (c < hint && c <= d < hint))
  }

  ghost predicate AlreadyLinked(links: seq<nat>, cluster: nat) {
    InRange(links, cluster) && InRange(links, links[cluster])
  }

  /** What the table layer keeps: links, chains, the search hint, the running count and the cluster
      allocated last. */
  datatype FatState = FatState(links: seq<nat>, chains: map<nat, seq<nat>>, hint: nat, count: nat, last: nat)

  /** A moment in the life of a volume: its bytes, as the cache stands for them, and the table. */
  datatype Snap = Snap(view: seq<byte>, fs: FatState)

  /** The outcome t of an allocation behind `cluster` in state s. */
  ghost predicate Allocated(g: Geometry, s: FatState, t: FatState, cluster: nat, h: nat, r: nat) {
    && |s.links| == g.lastCluster + 2
    && if Phantom(s.links, s.hint) then
         PhantomTaken(g, s, t, cluster, r)
       else if r == CLUSTER_ERROR then
         FreeSet(s.links) == {} && t == s.(hint := g.lastCluster + 1)
       else
         OneAllocated(s, t, cluster, h, r)
  }

  /** The slot past the end was taken for a free cluster: the tail now names a cluster that does
      not exist, and the count is lowered although nothing was allocated. */
  ghost predicate PhantomTaken(g: Geometry, s: FatState, t: FatState, cluster: nat, r: nat) {
    && r == g.lastCluster + 1 == t.hint == t.last && t.chains == s.chains && |s.links| == g.lastCluster + 2
    && t.count == (if s.count > 0 then s.count - 1 else 0)
    && t.links == if InRange(s.links, cluster) then s.links[cluster := StoredLink(g, r)] else s.links
  }

  ghost predicate OneAllocated(s: FatState, t: FatState, cluster: nat, h: nat, r: nat) {
    && WellFormed(t.links, t.chains)
    && FirstFrom(s.links, s.hint, r) && t.hint == r == t.last
    && FreeCount(s.links) == FreeCount(t.links) + 1
    && t.count == (if s.count > 0 then s.count - 1 else 0)
    && (s.count == FreeCount(s.links) ==> t.count == FreeCount(t.links))
    && if cluster == CLUSTER_FREE then
         t.links == s.links[r := CLUSTER_EOF] && t.chains == s.chains[r := [r]] && r !in s.chains
       else
         && InRange(s.links, cluster) && t.links == Appended(s.links, cluster, r)
         && h in s.chains && t.chains == s.chains[h := s.chains[h] + [r]]
  }

  lemma AllocatedFirst(s: FatState, t: FatState, r: nat)
    requires WellFormed(s.links, s.chains) && FirstFrom(s.links, s.hint, r) && t.hint == r == t.last
    requires t.links == s.links[r := CLUSTER_EOF] && t.chains == s.chains[r := [r]]
    requires t.count == if s.count > 0 then s.count - 1 else 0
    ensures OneAllocated(s, t, CLUSTER_FREE, 0, r)
  {
    StartChain(s.links, s.chains, r);
  }

  lemma AllocatedBehind(s: FatState, t: FatState, cluster: nat, h: nat, r: nat)
    requires WellFormed(s.links, s.chains) && FirstFrom(s.links, s.hint, r) && t.hint == r == t.last
    requires h in s.chains && cluster in s.chains[h] && InRange(s.links, cluster) && !AlreadyLinked(s.links, cluster)
    requires t.links == Appended(s.links, cluster, r) && t.chains == s.chains[h := s.chains[h] + [r]]
    requires t.count == if s.count > 0 then s.count - 1 else 0
    ensures OneAllocated(s, t, cluster, h, r)
  {
    TailOf(s.links, s.chains, h, cluster);
    ExtendChain(s.links, s.chains, h, cluster, r);
  }

  lemma FoundIsUsable(g: Geometry, links: seq<nat>, hint: nat, c: nat)
    requires g.Valid() && FirstFrom(links, hint, c) && |links| == g.lastCluster + 2
    ensures InRange(links, c) && links[c] == CLUSTER_FREE && c <= g.lastCluster && StoredLink(g, c) == c
  {
    ValidLinkSurvives(g, c);
  }

  /** What an allocation returns: an error, or a number of the data area. */
  lemma LinkedIsCluster(g: Geometry, s: FatState, t: FatState, cluster: nat, h: nat, r: nat)
    requires g.Valid() && |s.links| == g.lastCluster + 2
    requires cluster > g.lastCluster ==> r == CLUSTER_ERROR
    requires AlreadyLinked(s.links, cluster) ==> r == s.links[cluster]
    requires cluster <= g.lastCluster && !AlreadyLinked(s.links, cluster) ==> Allocated(g, s, t, cluster, h, r)
    ensures r == CLUSTER_ERROR || CLUSTER_FIRST <= r <= g.lastCluster + 1
    ensures r == g.lastCluster + 1 ==>
              cluster <= g.lastCluster && !AlreadyLinked(s.links, cluster) && Phantom(s.links, s.hint)
  {
  }

  /** With a sound hint the table stays well-formed and the cluster exists. */
  lemma SoundAlloc(g: Geometry, s: FatState, t: FatState, cluster: nat, h: nat, r: nat)
    requires g.Valid() && |s.links| == g.lastCluster + 2 && !Phantom(s.links, s.hint) && WellFormed(s.links, s.chains)
    requires cluster > g.lastCluster ==> r == CLUSTER_ERROR
    requires cluster > g.lastCluster || AlreadyLinked(s.links, cluster) ==> t == s
    requires AlreadyLinked(s.links, cluster) ==> r == s.links[cluster]
    requires cluster <= g.lastCluster && !AlreadyLinked(s.links, cluster) ==> Allocated(g, s, t, cluster, h, r)
    ensures WellFormed(t.links, t.chains) && (r == CLUSTER_ERROR || g.IsValidCluster(r))
  {
    hide WellFormed, FreeSet;
  }

  /** The cluster to be cleared lies in the partition. */
  lemma ClearedPlace(g: Geometry, s: FatState, t: FatState, cluster: nat, h: nat, r: nat)
    requires g.Valid() && |s.links| == g.lastCluster + 2 && r != CLUSTER_ERROR
    requires cluster > g.lastCluster ==> r == CLUSTER_ERROR
    requires AlreadyLinked(s.links, cluster) ==> r == s.links[cluster]
    requires cluster <= g.lastCluster && !AlreadyLinked(s.links, cluster) ==> Allocated(g, s, t, cluster, h, r)
    requires cluster <= g.lastCluster && !AlreadyLinked(s.links, cluster) && Phantom(s.links, s.hint) ==>
               g.ClusterToSector(g.lastCluster + 2) <= g.endOfPartition
    ensures r >= CLUSTER_FIRST && g.rootDirStart <= g.ClusterToSector(r)
    ensures g.ClusterToSector(r) + g.sectorsPerCluster <= g.endOfPartition
  {
    hide Geometry.Valid, Allocated, AlreadyLinked, Phantom, Geometry.ClusterToSector;
    GeometryBounds(g);
    LinkedIsCluster(g, s, t, cluster, h, r);
    if r <= g.lastCluster {
      ClusterPlace(g, r);
    } else {
      ClusterAfter(g, r);
    }
  }

  lemma AppendedIs(links: seq<nat>, t: nat, n: nat)
    requires InRange(links, t) && InRange(links, n)
    ensures Appended(links, t, n) == links[t := n][n := CLUSTER_EOF]
  {
  }

  ghost predicate ClusterFits(g: Geometry, view: seq<byte>, c: nat) {
    g.ClusterAddr(c) + g.BytesPerCluster() <= |view|
  }

  /** A write behind the table leaves all links alone. */
  lemma LinksAfterData(g: Geometry, view: seq<byte>, sector: nat, offset: nat, d: seq<byte>)
    requires g.Valid() && EntryFits(g, view, g.lastCluster + 1) && DataFrom(g) <= |view| && g.rootDirStart <= sector
    requires ByteOffset(sector, g.bytesPerSector) + offset + |d| <= |view|
    ensures FatEntries.Links(g, Splice(view, ByteOffset(sector, g.bytesPerSector) + offset, d))
            == FatEntries.Links(g, view)
  {
    hide ByteOffset;
    OffsetMono(g.rootDirStart, sector, g.bytesPerSector);
    LinksFrame(g, view, Splice(view, ByteOffset(sector, g.bytesPerSector) + offset, d));
  }

  /** The next cluster of the chain to free still has its old link. */
  lemma NotYetCleared(links: seq<nat>, tail: seq<nat>, i: nat)
    requires IsChain(links, tail) && i < |tail|
    ensures InRange(links, tail[i]) && Cleared(links, tail[..i])[tail[i]] == links[tail[i]]
    ensures Cleared(links, tail[..i])[tail[i] := CLUSTER_FREE] == Cleared(links, tail[..i + 1])
  {
    assert tail[i] !in tail[..i];
    assert tail[..i + 1] == tail[..i] + [tail[i]];
  }

  lemma OneMoreFree(links: seq<nat>, c: nat)
    requires InRange(links, c) && links[c] != CLUSTER_FREE
    ensures FreeCount(links[c := CLUSTER_FREE]) == FreeCount(links) + 1
  {
    assert FreeSet(links[c := CLUSTER_FREE]) == FreeSet(links) + {c};
  }

  /** While some cluster is in use the count is below the cap of the code. */
  lemma CapNotReached(g: Geometry, links: seq<nat>, c: nat)
    requires g.Valid() && |links| == g.lastCluster + 2 && InRange(links, c) && links[c] != CLUSTER_FREE
    ensures FreeCount(links) < g.numberOfSectors / g.sectorsPerCluster
  {
    var all := set d: nat | CLUSTER_FIRST <= d < g.lastCluster + 1 && InRange(links, d);
    RangeSize(links, g.lastCluster + 1);
    assert FreeSet(links) <= all - {c};
    SubsetCount(FreeSet(links), all - {c});
  }

  lemma RangeSize(links: seq<nat>, hi: nat)
    requires CLUSTER_FIRST <= hi < |links|
    ensures |set d: nat | CLUSTER_FIRST <= d < hi && InRange(links, d)| == hi - 2
  {
    var s := set d: nat | CLUSTER_FIRST <= d < hi && InRange(links, d);
    if hi == CLUSTER_FIRST {
      assert s == {};
    } else {
      RangeSize(links, hi - 1);
      assert s == (set d: nat | CLUSTER_FIRST <= d < hi - 1 && InRange(links, d)) + {hi - 1};
    }
  }

  lemma DropCount(links: seq<nat>, chains: map<nat, seq<nat>>, h: nat)
    requires WellFormed(links, chains) && h in chains
    ensures FreeCount(Cleared(links, chains[h])) == FreeCount(links) + |chains[h]|
  {
    ChainInRange(links, chains, h);
    IndicesInRange(links, chains[h]);
    ClearedCount(links, chains[h]);
  }

  lemma NonEmpty(links: seq<nat>, s: seq<nat>)
    requires IsChain(links, s)
    ensures s != []
  {
  }

  lemma IndicesInRange(links: seq<nat>, s: seq<nat>)
    requires IsChain(links, s)
    ensures forall i :: 0 <= i < |s| ==> InRange(links, s[i]) && links[s[i]] != CLUSTER_FREE
  {
    forall i | 0 <= i < |s| ensures InRange(links, s[i]) && links[s[i]] != CLUSTER_FREE {
      LinkInChain(links, s, i);
    }
  }

  /** Trimming to n clusters in the two steps of the code: free what follows, end the chain. */
  lemma CutSteps(links: seq<nat>, s: seq<nat>, n: nat)
    requires IsChain(links, s) && 0 < n <= |s|
    ensures InRange(links, s[n - 1]) && Cut(links, s, n) == Cleared(links, s[n..])[s[n - 1] := CLUSTER_EOF]
    ensures n == |s| ==> Cut(links, s, n) == links[s[n - 1] := CLUSTER_EOF]
    ensures FreeCount(Cut(links, s, n)) == FreeCount(Cleared(links, s[n..]))
    ensures n < |s| ==> IsChain(links, s[n..]) && s[n..][0] == s[n]
  {
    LinkInChain(links, s, n - 1);
    assert s[n - 1] !in s[n..];
    assert FreeSet(Cut(links, s, n)) == FreeSet(Cleared(links, s[n..]));
    if n == |s| {
      assert s[n..] == [];
      assert Cleared(links, []) == links;
    } else {
      assert forall i :: 0 <= i < |s| - n ==> s[n..][i] == s[n + i];
    }
  }

  /** A count raised by n, but not over the cap. */
  function Raised(count: nat, n: nat, cap: int): nat {
    if count >= cap then count else if count + n <= cap then count + n else cap
  }

  /** Freeing clusters moves the hint down or leaves it, and never frees the slot past the end. */
  lemma HintStays(links: seq<nat>, hint: nat, links': seq<nat>, hint': nat, s: seq<nat>)
    requires IsChain(links, s) && links' == Cleared(links, s)
    requires hint' == hint || hint' + 1 < |links|
    ensures !Phantom(links, hint) ==> !Phantom(links', hint')
  {
    IndicesInRange(links, s);
  }

  lemma HintStaysCut(links: seq<nat>, hint: nat, hint': nat, s: seq<nat>, n: nat)
    requires IsChain(links, s) && 0 < n <= |s| && InRange(links, s[n - 1])
    requires hint' == hint || hint' + 1 < |links|
    ensures !Phantom(links, hint) ==> !Phantom(Cut(links, s, n), hint')
  {
    IndicesInRange(links, s);
  }

  ghost function FreeBelow(links: seq<nat>, hi: nat): set<nat>
    requires hi < |links|
  {
    set c: nat | CLUSTER_FIRST <= c < hi && InRange(links, c) && links[c] == CLUSTER_FREE
  }

  /** The slot past the end handed out, which happens exactly when the hint points behind the last
      cluster and the slot there reads free.  The cluster does not exist; once a tail names it no
      set of chains explains the table any more; and an exact count goes wrong unless it was 0. */
  lemma PhantomBreaksTable(g: Geometry, s: FatState, t: FatState, cluster: nat, h: nat, r: nat)
    requires g.Valid() && WellFormed(s.links, s.chains) && Allocated(g, s, t, cluster, h, r)
    requires cluster == CLUSTER_FREE || (InRange(s.links, cluster) && s.links[cluster] != CLUSTER_FREE)
    requires g.lastCluster + 1 < EofFrom(g.filesysType)
    ensures r == CLUSTER_ERROR || g.IsValidCluster(r) <==> !Phantom(s.links, s.hint)
    ensures (exists chains :: WellFormed(t.links, chains)) <==> !Phantom(s.links, s.hint) || cluster == CLUSTER_FREE
    ensures Phantom(s.links, s.hint) && s.count == FreeCount(s.links) ==>
              (t.count == FreeCount(t.links) <==> FreeSet(s.links) == {})
  {
    if Phantom(s.links, s.hint) {
      ValidLinkSurvives(g, r);
      assert FreeSet(t.links) == FreeSet(s.links);
      if cluster == CLUSTER_FREE {
        assert WellFormed(t.links, s.chains);
      } else {
        forall chains ensures !WellFormed(t.links, chains) {
          if WellFormed(t.links, chains) {
            var k, i := FindOwner(t.links, chains, cluster);
            LinkInChain(t.links, chains[k], i);
          }
        }
      }
    } else if r == CLUSTER_ERROR {
      assert WellFormed(t.links, s.chains);
    } else {
      assert WellFormed(t.links, t.chains);
    }
  }

  /** A search that fails leaves the hint in that state exactly if the slot past the end reads free. */
  lemma FailedSearch(g: Geometry, s: FatState, t: FatState, cluster: nat, h: nat)
    requires g.Valid() && !Phantom(s.links, s.hint) && Allocated(g, s, t, cluster, h, CLUSTER_ERROR)
    ensures Phantom(t.links, t.hint) <==> t.links[g.lastCluster + 1] == CLUSTER_FREE
  {
    if OneAllocated(s, t, cluster, h, CLUSTER_ERROR) {
      assert false;
    }
  }

  /** A volume of two clusters, both in use, with a free slot behind the last entry. */
  const TINY: Geometry := Geometry(FS_FAT12, 1, 2, 3, FAT16_ROOT_DIR_CLUSTER, 5, 512, 1, 3, 5)
  const FULL: FatState := FatState([0, 0, CLUSTER_EOF, CLUSTER_EOF, CLUSTER_FREE], map[2 := [2], 3 := [3]], 2, 0, 0)

  lemma FullIsWellFormed()
    ensures TINY.Valid() && |FULL.links| == TINY.lastCluster + 2 && WellFormed(FULL.links, FULL.chains)
    ensures FreeSet(FULL.links) == {} && !Phantom(FULL.links, FULL.hint)
  {
    hide AllChains, DisjointChains, AllOwned;
    FullChains(FULL.links, FULL.chains);
    FullOwned(FULL.links, FULL.chains);
  }

  lemma FullChains(links: seq<nat>, chains: map<nat, seq<nat>>)
    requires links == [0, 0, CLUSTER_EOF, CLUSTER_EOF, CLUSTER_FREE] && chains == map[2 := [2], 3 := [3]]
    ensures AllChains(links, chains) && DisjointChains(chains)
  {
  }

  lemma FullOwned(links: seq<nat>, chains: map<nat, seq<nat>>)
    requires links == [0, 0, CLUSTER_EOF, CLUSTER_EOF, CLUSTER_FREE] && chains == map[2 := [2], 3 := [3]]
    ensures AllOwned(links, chains) && FreeSet(links) == {}
  {
    assert 2 in chains[2] && 3 in chains[3];
    assert Owned(chains, 2) && Owned(chains, 3);
  }

  /** For example: on that volume a first allocation behind cluster 2 fails, and a second one
      hands out cluster 4, which does not exist. */
  lemma PhantomHandedOut(t: FatState, u: FatState, r: nat, r': nat)
    requires Allocated(TINY, FULL, t, 2, 2, r) && Allocated(TINY, t, u, 2, 2, r')
    ensures r == CLUSTER_ERROR && Phantom(t.links, t.hint) && r' == 4
    ensures forall chains :: !WellFormed(u.links, chains)
  {
    FullIsWellFormed();
    assert r != CLUSTER_ERROR ==> r in FreeSet(FULL.links);
    PhantomBreaksTable(TINY, t, u, 2, 2, r');
  }

  lemma TailOf(links: seq<nat>, chains: map<nat, seq<nat>>, h: nat, c: nat)
    requires WellFormed(links, chains) && h in chains && c in chains[h] && InRange(links, c) && !AlreadyLinked(links, c)
    ensures |chains[h]| > 0 && chains[h][|chains[h]| - 1] == c
  {
    var i :| 0 <= i < |chains[h]| && chains[h][i] == c;
    LinkInChain(links, chains[h], i);
  }

  /** The address the code computes for a table entry from sector and offset. */
  lemma EntrySector(g: Geometry, c: nat)
    requires g.Valid() && c <= g.lastCluster + 1
    ensures g.bytesPerSector > 0
    ensures var at := EntryOffset(g.filesysType, c);
            var s := g.fatStart + at / g.bytesPerSector;
            && g.fatStart <= s < g.endOfPartition
            && ByteOffset(s, g.bytesPerSector) + at % g.bytesPerSector == EntryAddr(g, c)
            && ByteOffset(s + 1, g.bytesPerSector) == ByteOffset(s, g.bytesPerSector) + g.bytesPerSector
            && (g.filesysType == FS_FAT12 && at % g.bytesPerSector + 1 == g.bytesPerSector ==> s + 1 < g.endOfPartition)
    ensures EntryFitsBefore(g, c)
  {
    hide ByteOffset;
    var b, at := g.bytesPerSector, EntryOffset(g.filesysType, c);
    DivBounds(at, b);
    var s := g.fatStart + at / b;
    OffsetSplit(g.fatStart, at, b);
    OffsetMono(s, 0, b);
    InPartition(g, s);
    if g.filesysType == FS_FAT12 && at % b + 1 == b {
      InPartition(g, s + 1);
    }
  }

  lemma EntryEndMono(t: FsType, c: nat, d: nat)
    requires c <= d
    ensures EntryEnd(t, c) <= EntryEnd(t, d)
  {
  }

  /** Storing an entry touches no data. */
  lemma TableOnly(g: Geometry, view: seq<byte>, c: nat, v: nat)
    requires EntryFits(g, view, c) && EntryFitsBefore(g, c) && DataFrom(g) <= |view| && c <= g.lastCluster + 1
    ensures SameData(g, view, StoreEntry(g, view, c, v))
  {
    hide ByteOffset, StoreEntry;
    forall i: nat | i < DataFrom(g) && !InTable(g, i) ensures StoreEntry(g, view, c, v)[i] == view[i] {
      EntryEndMono(g.filesysType, c, g.lastCluster + 1);
      StoreFrame(g, view, c, v, i);
    }
    forall i | DataFrom(g) <= i < |view| ensures StoreEntry(g, view, c, v)[i] == view[i] {
      StoreFrame(g, view, c, v, i);
    }
  }

  lemma Raw12(g: Geometry, view: seq<byte>, c: nat)
    requires EntryFits(g, view, c) && g.filesysType == FS_FAT12
    ensures RawEntry(g, view, c) == Unpacked12(c % 2 == 1, view[EntryAddr(g, c)], view[EntryAddr(g, c) + 1])
  {
  }

  /** The link of a 12-bit entry, from its two bytes. */
  lemma LinkIs12(g: Geometry, view: seq<byte>, c: nat)
    requires EntryFits(g, view, g.lastCluster + 1) && 0 < c <= g.lastCluster + 1 && g.filesysType == FS_FAT12
    ensures EntryAddr(g, c) + 2 <= |view|
    ensures FatEntries.Links(g, view)[c]
            == Normalize(FS_FAT12, Unpacked12(c % 2 == 1, view[EntryAddr(g, c)], view[EntryAddr(g, c) + 1]))
  {
    FitsBelow(g, view, c);
    Raw12(g, view, c);
  }

  /** The two bytes of an odd entry, as the code cuts them out of the shifted value. */
  lemma OddBytes(value: nat, old0: byte, b1: byte)
    ensures var v := value * 0x10 + old0 as int % 0x10;
            LittleEndian(v % 0x100, 1) + LittleEndian(v / 0x100 % 0x100, 1) == Packed12(true, value, old0, b1)
  {
    var v, q := value * 0x10 + old0 as int % 0x10, value / 0x10;
    assert value == q * 0x10 + value % 0x10;
    assert v == q * 0x100 + (value % 0x10 * 0x10 + old0 as int % 0x10);
    OneByte(v % 0x100);
    OneByte(v / 0x100 % 0x100);
  }

  lemma EvenBytes(value: nat, b0: byte, old1: byte)
    ensures LittleEndian(value, 1) + LittleEndian(value / 0x100 % 0x10 + old1 as int / 0x10 * 0x10, 1)
            == Packed12(false, value, b0, old1)
  {
    OneByte(value);
    OneByte(value / 0x100 % 0x10 + old1 as int / 0x10 * 0x10);
  }

  lemma OneByte(v: nat)
    ensures LittleEndian(v, 1) == [v % 0x100]
  {
  }

  lemma Stored12(g: Geometry, view: seq<byte>, c: nat, v: nat, low: seq<byte>, high: seq<byte>)
    requires EntryFits(g, view, c) && g.filesysType == FS_FAT12
    requires |low| == 1 && EntryAddr(g, c) + 2 <= |view|
    requires low + high == Packed12(c % 2 == 1, v, view[EntryAddr(g, c)], view[EntryAddr(g, c) + 1])
    ensures StoreEntry(g, view, c, v) == Splice(Splice(view, EntryAddr(g, c), low), EntryAddr(g, c) + 1, high)
  {
    SpliceJoin(view, EntryAddr(g, c), low, high);
  }

  lemma Stored16(g: Geometry, view: seq<byte>, c: nat, v: nat)
    requires EntryFits(g, view, c) && g.filesysType == FS_FAT16
    ensures StoreEntry(g, view, c, v) == Splice(view, EntryAddr(g, c), LittleEndian(v, 2))
  {
  }

  lemma Stored32(g: Geometry, view: seq<byte>, c: nat, v: nat)
    requires EntryFits(g, view, c) && g.filesysType == FS_FAT32
    ensures StoreEntry(g, view, c, v) == Splice(view, EntryAddr(g, c), LittleEndian(v, 4))
  {
  }

  lemma Raw16(g: Geometry, view: seq<byte>, c: nat)
    requires EntryFits(g, view, c) && g.filesysType == FS_FAT16
    ensures RawEntry(g, view, c) == ToU16(view, EntryAddr(g, c))
  {
  }

  lemma Raw32(g: Geometry, view: seq<byte>, c: nat)
    requires EntryFits(g, view, c) && g.filesysType == FS_FAT32
    ensures RawEntry(g, view, c) == ToU32(view, EntryAddr(g, c))
  {
  }

  /** 16- and 32-bit entries never straddle a sector. */
  lemma EntryOffsets(g: Geometry, c: nat, k: nat)
    requires g.Valid() && (k == 2 || k == 4)
    ensures c % (g.bytesPerSector / k) * k == c * k % g.bytesPerSector
    ensures 0 <= c * k % g.bytesPerSector && c * k % g.bytesPerSector + k <= g.bytesPerSector
  {
    ScaledMod(c, k, g.bytesPerSector);
  }

  ghost predicate EntryFitsBefore(g: Geometry, c: nat) {
    ByteOffset(g.fatStart, g.bytesPerSector) + EntryEnd(g.filesysType, c) <= DataFrom(g)
  }

  lemma InPartition(g: Geometry, s: nat)
    requires g.Valid() && ByteOffset(s, g.bytesPerSector) < DataFrom(g)
    ensures s < g.endOfPartition
  {
    hide ByteOffset;
    OffsetMono(g.rootDirStart, s, g.bytesPerSector);
    MulMono(0, g.lastCluster - 1, g.sectorsPerCluster);
  }

  lemma OffsetSplit(start: nat, at: nat, m: nat)
    requires m > 0
    ensures ByteOffset(start + at / m, m) + at % m == ByteOffset(start, m) + at
  {
    DivBounds(at, m);
    OffsetAdd(start, at / m, m);
  }

  lemma ScaledMod(c: nat, k: nat, m: nat)
    requires m % DIR_ENTRY_DATA_SIZE == 0 && m > 0 && (k == 2 || k == 4)
    ensures m / k > 0 && c % (m / k) * k == c * k % m && c * k % m + k <= m
  {
    if k == 2 {
      assert m == m / 2 * 2;
      ScaledBy(c, m / 2, 2);
    } else {
      assert m == m / 4 * 4;
      ScaledBy(c, m / 4, 4);
    }
  }

  lemma ScaledBy(c: nat, n: nat, k: nat)
    requires n > 0 && k > 0
    ensures n * k > 0 && c % n * k == c * k % (n * k) && 0 <= c % n * k && c % n * k + k <= n * k
  {
    DivBounds(c, n);
    var q, r := c / n, c % n;
    MulMono(1, n, k);
    MulMono(r + 1, n, k);
    MulMono(r, 0, k);
    assert (q * n + r) * k == q * (n * k) + r * k;
    ModUnique(c * k, q, n * k, r * k);
  }

  class Partition {
    const g: Geometry
    const cache: Cache
    var firstFree: nat
    var numberFreeCluster: nat
    var numberLastAllocCluster: nat

    /** Every chain of the table, by its head. */
    ghost var chains: map<nat, seq<nat>>

    ghost function Repr(): set<object> {
      {this} + cache.Repr()
    }

    /** The volume is in place; says nothing about the table. */
    ghost predicate Mounted()
      reads Repr()
    {
      && g.Valid() && cache.Valid() && cache.disc.reliable
      && cache.bytesPerSector == g.bytesPerSector && cache.endOfPartition == g.endOfPartition
      && |cache.view| == ByteOffset(g.endOfPartition, g.bytesPerSector)
      && EntryFits(g, cache.view, g.lastCluster + 1) && DataFrom(g) <= |cache.view|
      && CLUSTER_FIRST <= firstFree <= g.lastCluster + 1
    }

    ghost function Links(): (l: seq<nat>)
      requires Mounted()
      reads Repr()
      ensures |l| == g.lastCluster + 2
    {
      FatEntries.Links(g, cache.view)
    }

    ghost predicate Valid()
      reads Repr()
    {
      Mounted() && WellFormed(Links(), chains)
    }

    /** Everything the volume holds at this moment. */
    ghost function Now(): Snap
      requires Mounted()
      reads Repr()
    {
      Snap(cache.view, Fs())
    }

    /** The search hint is not on a slot past the end that reads free. */
    ghost predicate HintOk()
      requires Mounted()
      reads Repr()
    {
      !Phantom(Links(), firstFree)
    }

    ghost function Fs(): FatState
      requires Mounted()
      reads Repr()
    {
      FatState(Links(), chains, firstFree, numberFreeCluster, numberLastAllocCluster)
    }

    /** The running count is the number of free entries. */
    ghost predicate CountExact()
      requires Mounted()
      reads Repr()
    {
      numberFreeCluster == FreeCount(Links())
    }

    /** A freshly mounted volume starts its search at the first cluster and has no count yet. */
    constructor (g: Geometry, cache: Cache, ghost chains: map<nat, seq<nat>>)
      requires g.Valid()
      ensures this.g == g && this.cache == cache && this.chains == chains
      ensures firstFree == CLUSTER_FIRST && numberFreeCluster == 0 && numberLastAllocCluster == 0
    {
      this.g, this.cache, this.chains := g, cache, chains;
      firstFree, numberFreeCluster, numberLastAllocCluster := CLUSTER_FIRST, 0, 0;
    }

    method NextCluster(cluster: nat) returns (nextCluster: nat)
      requires Mounted() && cluster <= g.lastCluster + 1
      modifies cache.Repr()
      ensures Mounted() && cache.view == old(cache.view)
      ensures nextCluster == Links()[cluster]
      ensures cluster == CLUSTER_FREE ==> nextCluster == CLUSTER_FREE
    {
      hide ByteOffset, Geometry.Valid, Cache.Valid, Cache.Touched, RawEntry;
      if cluster == CLUSTER_FREE { return CLUSTER_FREE; }
      ghost var view := cache.view;
      var ok;
      EntrySector(g, cluster);
      FitsBelow(g, view, cluster);
      match g.filesysType {
        case FS_FAT12 =>
          nextCluster := ReadEntry12(cluster);
        case FS_FAT16 =>
          EntryOffsets(g, cluster, 2);
          var sector := g.fatStart + cluster * 2 / g.bytesPerSector;
          ok, nextCluster := cache.ReadLittleEndianValue(sector, cluster % (g.bytesPerSector / 2) * 2, 2);
          assert nextCluster == RawEntry(g, view, cluster) by { Raw16(g, view, cluster); }
          if nextCluster >= 0xFFF7 { nextCluster := CLUSTER_EOF; }
        case FS_FAT32 =>
          EntryOffsets(g, cluster, 4);
          var sector := g.fatStart + cluster * 4 / g.bytesPerSector;
          ok, nextCluster := cache.ReadLittleEndianValue(sector, cluster % (g.bytesPerSector / 4) * 4, 4);
          assert nextCluster == RawEntry(g, view, cluster) by { Raw32(g, view, cluster); }
          if nextCluster >= 0x0FFFFFF7 { nextCluster := CLUSTER_EOF; }
      }
    }

    /** The 12-bit case: two bytes, which may lie in different sectors. */
    method ReadEntry12(cluster: nat) returns (nextCluster: nat)
      requires Mounted() && 0 < cluster <= g.lastCluster + 1 && g.filesysType == FS_FAT12
      modifies cache.Repr()
      ensures Mounted() && cache.view == old(cache.view)
      ensures nextCluster == Links()[cluster]
    {
      hide ByteOffset, Geometry.Valid, Cache.Valid, Cache.Touched, RawEntry, FatEntries.Links;
      LinkIs12(g, cache.view, cluster);
      EntrySector(g, cluster);
      var sector := g.fatStart + cluster * 3 / 2 / g.bytesPerSector;
      var offset := cluster * 3 / 2 % g.bytesPerSector;
      var ok, low, high;
      ok, low := cache.ReadLittleEndianValue(sector, offset, 1);
      offset := offset + 1;
      if offset >= g.bytesPerSector {
        sector, offset := sector + 1, 0;
      }
      ok, high := cache.ReadLittleEndianValue(sector, offset, 1);
      nextCluster := low + high * 0x100;
      if cluster % 2 == 1 {
        nextCluster := nextCluster / 0x10;
      } else {
        nextCluster := nextCluster % 0x1000;
      }
      if nextCluster >= 0x0FF7 { nextCluster := CLUSTER_EOF; }
    }

    /** Writes one entry; refuses clusters outside [2, lastCluster]. */
    method WriteFatEntry(cluster: nat, value: nat) returns (ok: bool)
      requires Mounted()
      modifies cache.Repr()
      ensures Mounted()
      ensures ok <==> g.IsValidCluster(cluster)
      ensures !ok ==> cache.view == old(cache.view)
      ensures ok ==>
                EntryFits(g, old(cache.view), cluster) && cache.view == StoreEntry(g, old(cache.view), cluster, value)
      ensures ok ==> Links() == old(Links())[cluster := StoredLink(g, value)]
      ensures SameData(g, old(cache.view), cache.view)
    {
      hide FatEntries.Links, StoredLink;
      hide ByteOffset, Geometry.Valid, Cache.Valid, Cache.Touched, StoreEntry, Splice, LittleEndian;
      if cluster < CLUSTER_FIRST || cluster > g.lastCluster { return false; }
      EntrySector(g, cluster);
      LinksStore(g, cache.view, cluster, value);
      TableOnly(g, cache.view, cluster, value);
      match g.filesysType {
        case FS_FAT12 =>
          if cluster % 2 == 1 { WriteOdd12(cluster, value); } else { WriteEven12(cluster, value); }
        case FS_FAT16 =>
          EntryOffsets(g, cluster, 2);
          Stored16(g, cache.view, cluster, value);
          var sector := g.fatStart + cluster * 2 / g.bytesPerSector;
          ok := cache.WriteLittleEndianValue(value, sector, cluster % (g.bytesPerSector / 2) * 2, 2);
        case FS_FAT32 =>
          EntryOffsets(g, cluster, 4);
          Stored32(g, cache.view, cluster, value);
          var sector := g.fatStart + cluster * 4 / g.bytesPerSector;
          ok := cache.WriteLittleEndianValue(value, sector, cluster % (g.bytesPerSector / 4) * 4, 4);
      }
      ok := true;
    }

    /** One byte of the table, at address a. */
    method WriteTableByte(value: nat, sector: nat, offset: nat, ghost a: nat)
      requires Mounted() && sector < g.endOfPartition && offset < g.bytesPerSector
      requires a == ByteOffset(sector, g.bytesPerSector) + offset
      modifies cache.Repr()
      ensures Mounted() && a < |old(cache.view)|
      ensures cache.view == Splice(old(cache.view), a, LittleEndian(value, 1))
    {
      hide ByteOffset, Geometry.Valid, Cache.Valid, Cache.Touched, Splice, LittleEndian;
      var ok := cache.WriteLittleEndianValue(value, sector, offset, 1);
    }

    method ReadTableByte(sector: nat, offset: nat, ghost a: nat) returns (value: nat)
      requires Mounted() && sector < g.endOfPartition && offset < g.bytesPerSector
      requires a == ByteOffset(sector, g.bytesPerSector) + offset
      modifies cache.Repr()
      ensures Mounted() && cache.view == old(cache.view)
      ensures a < |cache.view| && value == cache.view[a] as int
    {
      hide ByteOffset, Geometry.Valid, Cache.Valid, Cache.Touched;
      var ok;
      ok, value := cache.ReadLittleEndianValue(sector, offset, 1);
    }

    /** An odd 12-bit entry keeps the low nibble of its first byte, which is its neighbour's. */
    method WriteOdd12(cluster: nat, value: nat)
      requires Mounted() && g.IsValidCluster(cluster) && g.filesysType == FS_FAT12 && cluster % 2 == 1
      modifies cache.Repr()
      ensures Mounted() && EntryFits(g, old(cache.view), cluster)
      ensures cache.view == StoreEntry(g, old(cache.view), cluster, value)
    {
      hide ByteOffset, Geometry.Valid, Cache.Valid, Cache.Touched, Splice, LittleEndian, Packed12, StoreEntry;
      ghost var view := cache.view;
      EntrySector(g, cluster);
      FitsBelow(g, view, cluster);
      ghost var a := EntryAddr(g, cluster);
      var sector := g.fatStart + cluster * 3 / 2 / g.bytesPerSector;
      var offset := cluster * 3 / 2 % g.bytesPerSector;
      var oldValue := ReadTableByte(sector, offset, a);
      var v := value * 0x10 + oldValue % 0x10;
      ghost var low, high := LittleEndian(v % 0x100, 1), LittleEndian(v / 0x100 % 0x100, 1);
      OddBytes(value, view[a], view[a + 1]);
      WriteTableByte(v % 0x100, sector, offset, a);
      offset := offset + 1;
      if offset >= g.bytesPerSector {
        sector, offset := sector + 1, 0;
      }
      WriteTableByte(v / 0x100 % 0x100, sector, offset, a + 1);
      Stored12(g, view, cluster, value, low, high);
    }

    /** An even one keeps the high nibble of its second byte. */
    method WriteEven12(cluster: nat, value: nat)
      requires Mounted() && g.IsValidCluster(cluster) && g.filesysType == FS_FAT12 && cluster % 2 == 0
      modifies cache.Repr()
      ensures Mounted() && EntryFits(g, old(cache.view), cluster)
      ensures cache.view == StoreEntry(g, old(cache.view), cluster, value)
    {
      hide ByteOffset, Geometry.Valid, Cache.Valid, Cache.Touched, Splice, LittleEndian, Packed12, StoreEntry;
      ghost var view := cache.view;
      EntrySector(g, cluster);
      FitsBelow(g, view, cluster);
      ghost var a := EntryAddr(g, cluster);
      var sector := g.fatStart + cluster * 3 / 2 / g.bytesPerSector;
      var offset := cluster * 3 / 2 % g.bytesPerSector;
      ghost var low := LittleEndian(value, 1);
      WriteTableByte(value, sector, offset, a);
      offset := offset + 1;
      if offset >= g.bytesPerSector {
        sector, offset := sector + 1, 0;
      }
      var oldValue := ReadTableByte(sector, offset, a + 1);
      var v := value / 0x100 % 0x10 + oldValue / 0x10 * 0x10;
      assert oldValue == view[a + 1] as int;
      EvenBytes(value, view[a], view[a + 1]);
      WriteTableByte(v, sector, offset, a + 1);
      Stored12(g, view, cluster, value, low, LittleEndian(v, 1));
    }

    /** The free cluster the search settles on: the first from the hint on, else the first of all. */
    method FindFree() returns (found: bool, cluster: nat)
      requires Mounted()
      modifies cache.Repr()
      ensures Mounted() && cache.view == old(cache.view) && CLUSTER_FIRST <= cluster <= g.lastCluster + 1
      ensures Phantom(Links(), firstFree) ==> found && cluster == firstFree
      ensures !Phantom(Links(), firstFree) && found ==> FirstFrom(Links(), firstFree, cluster)
      ensures !found ==> cluster == g.lastCluster + 1 && FreeSet(Links()) == {}
    {
      hide ByteOffset, Geometry.Valid, Cache.Valid, Cache.Touched, FatEntries.Links;
      GeometryBounds(g);
      ghost var links := Links();
      var loopedAroundFAT := false;
      cluster := firstFree;
      while true
        invariant Mounted() && cache.view == old(cache.view)
        invariant CLUSTER_FIRST <= cluster <= g.lastCluster + 1
        invariant cluster == g.lastCluster + 1 ==> !loopedAroundFAT && cluster == firstFree
        invariant !loopedAroundFAT ==> firstFree <= cluster
        invariant !loopedAroundFAT ==> forall d :: firstFree <= d < cluster ==> links[d] != CLUSTER_FREE
        invariant loopedAroundFAT ==>
                    forall d :: 2 <= d < cluster || firstFree <= d <= g.lastCluster ==> links[d] != CLUSTER_FREE
        invariant loopedAroundFAT && firstFree == g.lastCluster + 1 ==> links[firstFree] != CLUSTER_FREE
        decreases !loopedAroundFAT, g.lastCluster + 1 - cluster
      {
        var next := NextCluster(cluster);
        if next == CLUSTER_FREE { return true, cluster; }
        cluster := cluster + 1;
        if cluster > g.lastCluster {
          if loopedAroundFAT { return false, g.lastCluster + 1; }
          cluster, loopedAroundFAT := CLUSTER_FIRST, true;
        }
      }
    }

    /** Puts a free cluster behind the last one of chain h, or starts a chain with it
        (cluster = CLUSTER_FREE).  A cluster that already has a successor keeps it. */
    method LinkFreeCluster(cluster: nat, ghost h: nat) returns (r: nat)
      requires Valid() && cluster != 1
      requires g.IsValidCluster(cluster) ==> h in chains && cluster in chains[h]
      modifies Repr()
      ensures Mounted() && SameData(g, old(cache.view), cache.view)
      ensures cluster > g.lastCluster ==> r == CLUSTER_ERROR
      ensures AlreadyLinked(old(Links()), cluster) ==> r == old(Links())[cluster]
      ensures cluster > g.lastCluster || AlreadyLinked(old(Links()), cluster) || r == CLUSTER_ERROR ==>
                cache.view == old(cache.view)
      ensures cluster > g.lastCluster || AlreadyLinked(old(Links()), cluster) ==> Fs() == old(Fs())
      ensures cluster <= g.lastCluster && !AlreadyLinked(old(Links()), cluster) ==>
                Allocated(g, old(Fs()), Fs(), cluster, if cluster == CLUSTER_FREE then 0 else h, r)
      ensures Valid() <==> WellFormed(Links(), chains)
    {
      hide ByteOffset, Geometry.Valid, Cache.Valid, Cache.Touched, FatEntries.Links, WellFormed, FreeSet, StoredLink;
      hide OneAllocated, FirstFrom, Appended;
      GeometryBounds(g);
      ghost var s := Fs();
      if cluster > g.lastCluster { return CLUSTER_ERROR; }
      var curLink := NextCluster(cluster);
      if curLink >= CLUSTER_FIRST && curLink <= g.lastCluster { return curLink; }
      var found, free := FindFree();
      firstFree := free;
      if !found { return CLUSTER_ERROR; }
      if numberFreeCluster > 0 {
        numberFreeCluster := numberFreeCluster - 1;
      }
      numberLastAllocCluster := free;
      LinkBoth(cluster, free);
      r := free;
      if !Phantom(s.links, s.hint) {
        FoundIsUsable(g, s.links, s.hint, free);
        if cluster == CLUSTER_FREE {
          chains := chains[free := [free]];
          AllocatedFirst(s, Fs(), free);
        } else {
          chains := chains[h := chains[h] + [free]];
          assert Fs().links == Appended(s.links, cluster, free) by { AppendedIs(s.links, cluster, free); }
          AllocatedBehind(s, Fs(), cluster, h, free);
        }
      }
    }

    /** Links the predecessor, if there is one, to the new cluster and ends the chain there. */
    method LinkBoth(cluster: nat, free: nat)
      requires Mounted() && cluster <= g.lastCluster && cluster != 1 && 2 <= free <= g.lastCluster + 1
      modifies cache.Repr()
      ensures Mounted() && SameData(g, old(cache.view), cache.view)
      ensures var links := if cluster
              == CLUSTER_FREE then old(Links()) else old(Links())[cluster := StoredLink(g, free)];
              Links() == if free <= g.lastCluster then links[free := CLUSTER_EOF] else links
    {
      hide ByteOffset, Geometry.Valid, Cache.Valid, Cache.Touched, FatEntries.Links, StoredLink;
      ValidLinkSurvives(g, CLUSTER_EOF);
      var ok;
      if cluster >= CLUSTER_FIRST && cluster <= g.lastCluster {
        ok := WriteFatEntry(cluster, free);
      }
      ok := WriteFatEntry(free, CLUSTER_EOF);
    }

    // ---- data, behind the table ----

    method WriteSectors(sector: nat, numSectors: nat, buffer: seq<byte>)
      requires Mounted() && g.rootDirStart <= sector && sector + numSectors <= g.endOfPartition
      requires |buffer| == ByteOffset(numSectors, g.bytesPerSector)
      modifies cache.Repr()
      ensures Mounted() && Links() == old(Links())
      ensures ByteOffset(sector, g.bytesPerSector) + |buffer| <= |old(cache.view)|
      ensures cache.view == Splice(old(cache.view), ByteOffset(sector, g.bytesPerSector), buffer)
    {
      hide ByteOffset, Geometry.Valid, Cache.Valid, Cache.Touched, FatEntries.Links, Splice;
      var ok := cache.WriteSectors(sector, numSectors, buffer);
      LinksAfterData(g, old(cache.view), sector, 0, buffer);
    }

    method WritePartialSector(buffer: seq<byte>, sector: nat, offset: nat)
      requires Mounted() && g.rootDirStart <= sector < g.endOfPartition && offset + |buffer| <= g.bytesPerSector
      modifies cache.Repr()
      ensures Mounted() && Links() == old(Links())
      ensures ByteOffset(sector, g.bytesPerSector) + offset + |buffer| <= |old(cache.view)|
      ensures cache.view == Splice(old(cache.view), ByteOffset(sector, g.bytesPerSector) + offset, buffer)
    {
      hide ByteOffset, Geometry.Valid, Cache.Valid, Cache.Touched, FatEntries.Links, Splice;
      var ok := cache.WritePartialSector(buffer, sector, offset);
      LinksAfterData(g, old(cache.view), sector, offset, buffer);
    }

    method EraseWritePartialSector(buffer: seq<byte>, sector: nat)
      requires Mounted() && g.rootDirStart <= sector < g.endOfPartition && |buffer| <= g.bytesPerSector
      modifies cache.Repr()
      ensures Mounted() && Links() == old(Links())
      ensures ByteOffset(sector, g.bytesPerSector) + g.bytesPerSector <= |old(cache.view)|
      ensures cache.view
              == Splice(old(cache.view), ByteOffset(sector, g.bytesPerSector),
                        buffer + Zeros(g.bytesPerSector - |buffer|))
    {
      hide ByteOffset, Geometry.Valid, Cache.Valid, Cache.Touched, FatEntries.Links;
      var ok := cache.EraseWritePartialSector(buffer, sector, 0);
      var full := buffer + Zeros(g.bytesPerSector - |buffer|);
      assert Splice(Zeros(g.bytesPerSector), 0, buffer) == full;
      LinksAfterData(g, old(cache.view), sector, 0, full);
    }

    /** Links like LinkFreeCluster and fills the cluster with zeros, also one that was linked
        before.  The cluster past the end can only be filled when it lies in the partition. */
    method LinkFreeClusterCleared(cluster: nat, ghost h: nat) returns (newCluster: nat)
      requires Valid() && cluster != 1
      requires g.IsValidCluster(cluster) ==> h in chains && cluster in chains[h]
      requires cluster <= g.lastCluster && !AlreadyLinked(Links(), cluster) && Phantom(Links(), firstFree) ==>
                 g.ClusterToSector(g.lastCluster + 2) <= g.endOfPartition
      modifies Repr()
      ensures Mounted() && (Valid() <==> WellFormed(Links(), chains))
      ensures old(HintOk()) ==> Valid() && (newCluster == CLUSTER_ERROR || g.IsValidCluster(newCluster))
      ensures cluster > g.lastCluster ==> newCluster == CLUSTER_ERROR && Fs() == old(Fs())
      ensures AlreadyLinked(old(Links()), cluster) ==> newCluster == old(Links())[cluster] && Fs() == old(Fs())
      ensures cluster <= g.lastCluster && !AlreadyLinked(old(Links()), cluster) ==>
                Allocated(g, old(Fs()), Fs(), cluster, if cluster == CLUSTER_FREE then 0 else h, newCluster)
      ensures newCluster == CLUSTER_ERROR ==> cache.view == old(cache.view)
      ensures newCluster != CLUSTER_ERROR ==>
                exists v :: SameData(g, old(cache.view), v) && ClusterFits(g, v, newCluster)
                            && cache.view == Splice(v, g.ClusterAddr(newCluster), Zeros(g.BytesPerCluster()))
    {
      hide ByteOffset, Geometry.Valid, Cache.Valid, Cache.Touched, FatEntries.Links, Splice, WellFormed, FreeSet,
           Appended, OneAllocated;
      GeometryBounds(g);
      ghost var s := Fs();
      newCluster := LinkFreeCluster(cluster, h);
      ghost var head := if cluster == CLUSTER_FREE then 0 else h;
      if !Phantom(s.links, s.hint) { SoundAlloc(g, s, Fs(), cluster, head, newCluster); }
      if newCluster == CLUSTER_FREE || newCluster == CLUSTER_ERROR {
        assert newCluster == CLUSTER_ERROR by { LinkedIsCluster(g, s, Fs(), cluster, head, newCluster); }
        return CLUSTER_ERROR;
      }
      ClearedPlace(g, s, Fs(), cluster, head, newCluster);
      ClearCluster(newCluster);
    }

    /** Zeros over one cluster, sector by sector. */
    method ClearCluster(cluster: nat)
      requires Mounted() && cluster >= CLUSTER_FIRST && g.rootDirStart <= g.ClusterToSector(cluster)
      requires g.ClusterToSector(cluster) + g.sectorsPerCluster <= g.endOfPartition
      modifies cache.Repr()
      ensures Mounted() && Fs() == old(Fs()) && ClusterFits(g, old(cache.view), cluster)
      ensures cache.view == Splice(old(cache.view), g.ClusterAddr(cluster), Zeros(g.BytesPerCluster()))
    {
      hide ByteOffset, Geometry.Valid, Cache.Valid, Cache.Touched, FatEntries.Links, Splice, WellFormed;
      GeometryBounds(g);
      ghost var fs, v := Fs(), cache.view;
      var first := g.ClusterToSector(cluster);
      var emptySector := Zeros(g.bytesPerSector);
      var i := 0;
      OffsetMono(0, 0, g.bytesPerSector);
      OffsetAdd(first, g.sectorsPerCluster, g.bytesPerSector);
      OffsetMono(first + g.sectorsPerCluster, g.endOfPartition, g.bytesPerSector);
      assert Splice(v, ByteOffset(first, g.bytesPerSector), Zeros(0)) == v by {
        SpliceNothing(v, ByteOffset(first, g.bytesPerSector));
      }
      while i < g.sectorsPerCluster
        invariant 0 <= i <= g.sectorsPerCluster
        invariant Mounted() && Fs() == fs && |cache.view| == |v|
        invariant ByteOffset(first, g.bytesPerSector) + ByteOffset(i, g.bytesPerSector) <= |v|
        invariant cache.view == Splice(v, ByteOffset(first, g.bytesPerSector), Zeros(ByteOffset(i, g.bytesPerSector)))
      {
        OffsetMono(0, 1, g.bytesPerSector);
        OffsetMono(i, i + 1, g.bytesPerSector);
        OffsetAdd(first, i, g.bytesPerSector);
        WriteSectors(first + i, 1, emptySector);
        SpliceJoin(v, ByteOffset(first, g.bytesPerSector), Zeros(ByteOffset(i, g.bytesPerSector)), emptySector);
        assert Zeros(ByteOffset(i, g.bytesPerSector)) + emptySector == Zeros(ByteOffset(i + 1, g.bytesPerSector));
        i := i + 1;
      }
    }

    // ---- freeing ----

    /** Frees the clusters of a chain from `cluster` on; `tail` is that end of the chain. */
    method ClearLinks(cluster: nat, ghost tail: seq<nat>) returns (ok: bool)
      requires Mounted()
      requires g.IsValidCluster(cluster) ==> IsChain(Links(), tail) && tail[0] == cluster
      modifies cache.Repr(), this`firstFree, this`numberFreeCluster
      ensures Mounted() && SameData(g, old(cache.view), cache.view)
      ensures ok <==> g.IsValidCluster(cluster)
      ensures !ok ==> cache.view == old(cache.view) && Fs() == old(Fs())
      ensures ok ==> Links() == Cleared(old(Links()), tail)
      ensures ok ==> firstFree == if cluster < old(firstFree) then cluster else old(firstFree)
      ensures g.sectorsPerCluster > 0
      ensures ok ==> numberFreeCluster
                     == Raised(old(numberFreeCluster), |tail|, g.numberOfSectors / g.sectorsPerCluster)
      ensures ok && old(CountExact()) ==> CountExact()
    {
      hide ByteOffset, Geometry.Valid, Cache.Valid, Cache.Touched, FatEntries.Links, StoredLink;
      GeometryBounds(g);
      if cluster < CLUSTER_FIRST || cluster > g.lastCluster { return false; }
      ghost var links := Links();
      if cluster < firstFree { firstFree := cluster; }
      var current := cluster;
      ghost var i, cap := 0, g.numberOfSectors / g.sectorsPerCluster;
      assert Cleared(links, tail[..0]) == links;
      ValidLinkSurvives(g, CLUSTER_FREE);
      while current != CLUSTER_EOF && current != CLUSTER_FREE && current != CLUSTER_ERROR
        invariant 0 <= i <= |tail| && current == if i < |tail| then tail[i] else CLUSTER_EOF
        invariant Mounted() && SameData(g, old(cache.view), cache.view)
        invariant Links() == Cleared(links, tail[..i])
        invariant numberFreeCluster == Raised(old(numberFreeCluster), i, cap)
        invariant old(CountExact()) ==> CountExact()
        invariant firstFree == if cluster < old(firstFree) then cluster else old(firstFree)
        decreases |tail| - i
      {
        LinkInChain(links, tail, i);
        NotYetCleared(links, tail, i);
        var nextCluster := FreeEntry(current);
        current := nextCluster;
        i := i + 1;
      }
      assert tail[..i] == tail;
      ok := true;
    }

    /** One round: remembers the link, erases it and counts the cluster. */
    method FreeEntry(current: nat) returns (nextCluster: nat)
      requires Mounted() && g.IsValidCluster(current) && InRange(Links(), current) && Links()[current] != CLUSTER_FREE
      modifies cache.Repr(), this`numberFreeCluster
      ensures Mounted() && SameData(g, old(cache.view), cache.view)
      ensures nextCluster == old(Links())[current] && Links() == old(Links())[current := CLUSTER_FREE]
      ensures g.sectorsPerCluster > 0
      ensures numberFreeCluster == Raised(old(numberFreeCluster), 1, g.numberOfSectors / g.sectorsPerCluster)
      ensures old(CountExact()) ==> CountExact()
    {
      hide ByteOffset, Geometry.Valid, Cache.Valid, Cache.Touched, FatEntries.Links, StoredLink, FreeCount;
      GeometryBounds(g);
      ghost var before := Links();
      CapNotReached(g, before, current);
      ValidLinkSurvives(g, CLUSTER_FREE);
      nextCluster := NextCluster(current);
      var written := WriteFatEntry(current, CLUSTER_FREE);
      if numberFreeCluster < g.numberOfSectors / g.sectorsPerCluster {
        numberFreeCluster := numberFreeCluster + 1;
      }
      OneMoreFree(before, current);
    }

    /** Frees a whole chain. */
    method ClearChain(h: nat) returns (ok: bool)
      requires Valid() && (g.IsValidCluster(h) ==> h in chains)
      modifies Repr()
      ensures Valid() && SameData(g, old(cache.view), cache.view)
      ensures ok <==> g.IsValidCluster(h)
      ensures !ok ==> cache.view == old(cache.view) && Fs() == old(Fs())
      ensures ok ==> h in old(chains) && chains == old(chains) - {h}
      ensures ok ==> FreeCount(Links()) == FreeCount(old(Links())) + |old(chains)[h]|
      ensures old(CountExact()) ==> CountExact()
      ensures firstFree == if ok && h < old(firstFree) then h else old(firstFree)
      ensures numberLastAllocCluster == old(numberLastAllocCluster)
      ensures old(HintOk()) ==> HintOk()
    {
      hide ByteOffset, Geometry.Valid, Cache.Valid, Cache.Touched, FatEntries.Links, WellFormed, Cleared, FreeCount;
      ghost var links := Links();
      if h in chains { ChainInRange(links, chains, h); }
      ok := ClearLinks(h, if h in chains then chains[h] else []);
      if ok {
        HintStays(links, old(firstFree), Links(), firstFree, chains[h]);
        DropChain(links, chains, h);
        DropCount(links, chains, h);
        chains := chains - {h};
      }
    }

    /** The cluster a chain is to be cut behind, and the one after it. */
    method LastToKeep(startCluster: nat, chainLength: nat) returns (last: nat, nextCluster: nat, ghost n: nat)
      requires Valid() && startCluster in chains && chainLength > 0
      modifies cache.Repr()
      ensures Valid() && cache.view == old(cache.view) && Fs() == old(Fs())
      ensures var s := chains[startCluster];
              && n == (if chainLength < |s| then chainLength else |s|) && 0 < n && last == s[n - 1]
              && nextCluster == (if n == |s| then CLUSTER_EOF else s[n]) && (n < |s| ==> g.IsValidCluster(s[n]))
    {
      hide ByteOffset, Geometry.Valid, Cache.Valid, Cache.Touched, FatEntries.Links, WellFormed, FreeCount, IsChain;
      GeometryBounds(g);
      ghost var links, s := Links(), chains[startCluster];
      ghost var k := 0;
      var left := chainLength - 1;
      last := startCluster;
      ChainInRange(links, chains, startCluster);
      IndicesInRange(links, s);
      assert s != [] by { NonEmpty(links, s); }
      LinkInChain(links, s, 0);
      nextCluster := NextCluster(last);
      while left > 0 && nextCluster != CLUSTER_FREE && nextCluster != CLUSTER_EOF
        invariant Valid() && cache.view == old(cache.view) && Fs() == old(Fs())
        invariant 0 <= k < |s| && 0 <= left == chainLength - 1 - k && last == s[k]
        invariant nextCluster == if k == |s| - 1 then CLUSTER_EOF else s[k + 1]
        decreases left
      {
        LinkInChain(links, s, k + 1);
        left, last := left - 1, nextCluster;
        k := k + 1;
        nextCluster := NextCluster(last);
      }
      n := k + 1;
      assert k < |s| - 1 ==> InRange(links, s[k + 1]);
    }

    /** Keeps the first chainLength clusters of a chain and frees the others. */
    method TrimChain(startCluster: nat, chainLength: nat) returns (last: nat)
      requires Valid() && g.IsValidCluster(startCluster) && startCluster in chains
      modifies Repr()
      ensures Valid() && SameData(g, old(cache.view), cache.view)
      ensures chainLength == 0 ==> last == CLUSTER_FREE && chains == old(chains) - {startCluster}
      ensures chainLength > 0 ==>
                var s := old(chains)[startCluster];
                var n := if chainLength < |s| then chainLength else |s|;
                && n > 0 && last == s[n - 1] && chains == old(chains)[startCluster := s[..n]]
                && FreeCount(Links()) == FreeCount(old(Links())) + |s| - n
      ensures old(CountExact()) ==> CountExact()
      ensures chainLength > 0 ==>
                var s := old(chains)[startCluster];
                firstFree == if chainLength < |s| && s[chainLength] < old(firstFree) then s[chainLength]
                             else old(firstFree)
      ensures numberLastAllocCluster == old(numberLastAllocCluster)
      ensures old(HintOk()) ==> HintOk()
    {
      hide ByteOffset, Geometry.Valid, Cache.Valid, Cache.Touched, FatEntries.Links, StoredLink, WellFormed, Cleared,
           Cut, FreeCount, IsChain, FreeSet, Phantom;
      GeometryBounds(g);
      if chainLength == 0 {
        var ok := ClearChain(startCluster);
        return CLUSTER_FREE;
      }
      ghost var links, s, n := Links(), chains[startCluster], 0;
      var nextCluster;
      last, nextCluster, n := LastToKeep(startCluster, chainLength);
      ChainInRange(links, chains, startCluster);
      CutSteps(links, s, n);
      CutChain(links, chains, startCluster, n);
      ValidLinkSurvives(g, CLUSTER_EOF);
      if nextCluster != CLUSTER_FREE && nextCluster != CLUSTER_EOF {
        LinkInChain(links, s, n);
        var cleared := ClearLinks(nextCluster, s[n..]);
      }
      HintStaysCut(links, old(firstFree), firstFree, s, n);
      var ok := WriteFatEntry(last, CLUSTER_EOF);
      chains := chains[startCluster := s[..n]];
    }

    /** The last cluster of a chain. */
    method LastCluster(cluster: nat) returns (last: nat)
      requires Valid() && (cluster == CLUSTER_FREE || (g.IsValidCluster(cluster) && cluster in chains))
      modifies cache.Repr()
      ensures Valid() && cache.view == old(cache.view)
      ensures last == if cluster == CLUSTER_FREE then CLUSTER_FREE else chains[cluster][|chains[cluster]| - 1]
    {
      hide ByteOffset, Geometry.Valid, Cache.Valid, Cache.Touched, FatEntries.Links;
      GeometryBounds(g);
      ghost var k := 0;
      ghost var s := if cluster == CLUSTER_FREE then [] else chains[cluster];
      last := cluster;
      var next := NextCluster(last);
      while next != CLUSTER_FREE && next != CLUSTER_EOF
        invariant Valid() && cache.view == old(cache.view)
        invariant cluster != CLUSTER_FREE ==>
                    && IsChain(Links(), s)
                    && 0 <= k < |s|
                    && last == s[k]
                    && next == if k == |s| - 1 then CLUSTER_EOF else s[k + 1]
        invariant cluster == CLUSTER_FREE ==> next == CLUSTER_FREE && last == CLUSTER_FREE
        decreases |s| - k
      {
        LinkInChain(Links(), s, k + 1);
        last := next;
        k := k + 1;
        next := NextCluster(last);
      }
    }

    /** Counts the free entries one by one. */
    method FreeClusterCount() returns (count: nat)
      requires Mounted()
      modifies cache.Repr()
      ensures Mounted() && cache.view == old(cache.view)
      ensures count == FreeCount(Links())
    {
      hide ByteOffset, Geometry.Valid, Cache.Valid, Cache.Touched, FatEntries.Links;
      GeometryBounds(g);
      ghost var links := Links();
      count := 0;
      var curCluster := CLUSTER_FIRST;
      while curCluster <= g.lastCluster
        invariant Mounted() && cache.view == old(cache.view)
        invariant CLUSTER_FIRST <= curCluster <= g.lastCluster + 1
        invariant count == |FreeBelow(links, curCluster)|
      {
        var next := NextCluster(curCluster);
        assert FreeBelow(links, curCluster + 1)
            == if next == CLUSTER_FREE then FreeBelow(links,
                                                      curCluster) + {curCluster} else FreeBelow(links, curCluster);
        if next == CLUSTER_FREE { count := count + 1; }
        curCluster := curCluster + 1;
      }
      assert FreeBelow(links, curCluster) == FreeSet(links);
    }
  }
}
