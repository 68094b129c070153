/** The fixed numbers of a mounted FAT volume (source/partition.c) and where its
    table entries and clusters lie (source/file_allocation_table.h). */
module Layout {
  import opened Bytes
  import opened Pages

  const CLUSTER_FREE: nat := 0x0000_0000
  const CLUSTER_FIRST: nat := 0x0000_0002
  const CLUSTER_EOF: nat := 0x0FFF_FFFF
  const CLUSTER_ERROR: nat := 0xFFFF_FFFF
  const CLUSTERS_PER_FAT12: nat := 4085
  const CLUSTERS_PER_FAT16: nat := 65525
  const MIN_SECTOR_SIZE: nat := 512
  const MAX_SECTOR_SIZE: nat := 4096
  const FAT16_ROOT_DIR_CLUSTER: nat := 0
  const DIR_ENTRY_DATA_SIZE: nat := 0x20

  datatype FsType = FS_FAT12 | FS_FAT16 | FS_FAT32

  /** The least entry value that reads as the end of a chain. */
  function EofFrom(t: FsType): nat {
    match t
    case FS_FAT12 => 0x0FF7
    case FS_FAT16 => 0xFFF7
    case FS_FAT32 => 0x0FFF_FFF7
  }

  /** The bytes of the table up to and including the entry of cluster c. */
  function EntryEnd(t: FsType, c: nat): nat {
    match t
    case FS_FAT12 => c * 3 / 2 + 2
    case FS_FAT16 => c * 2 + 2
    case FS_FAT32 => c * 4 + 4
  }

  datatype Geometry = Geometry(
    filesysType: FsType, fatStart: nat, rootDirStart: nat, dataStart: nat, rootDirCluster: nat,
    numberOfSectors: nat, bytesPerSector: nat, sectorsPerCluster: nat, lastCluster: nat, endOfPartition: nat)
  {
    function BytesPerCluster(): nat {
      ByteOffset(sectorsPerCluster, bytesPerSector)
    }

    /** Sector sizes are multiples of the directory slot; the table has room for the
        entry after the last cluster's and ends before the root directory; the data
        area lies in the partition. */
    ghost predicate Valid() {
      && MIN_SECTOR_SIZE <= bytesPerSector <= MAX_SECTOR_SIZE && bytesPerSector % DIR_ENTRY_DATA_SIZE == 0
      && 0 < sectorsPerCluster
      && CLUSTER_FIRST <= lastCluster < EofFrom(filesysType)
      && ByteOffset(fatStart, bytesPerSector) + EntryEnd(filesysType, lastCluster + 1)
         <= ByteOffset(rootDirStart, bytesPerSector)
      && rootDirStart <= dataStart
      && dataStart + (lastCluster - 1) * sectorsPerCluster <= endOfPartition < CACHE_FREE
      && (lastCluster - 1) <= numberOfSectors / sectorsPerCluster
      && (filesysType == FS_FAT32 ==> CLUSTER_FIRST <= rootDirCluster <= lastCluster)
      && (filesysType != FS_FAT32 ==> rootDirCluster == FAT16_ROOT_DIR_CLUSTER)
    }

    predicate IsValidCluster(cluster: nat) {
      CLUSTER_FIRST <= cluster <= lastCluster
    }

    function ClusterToSector(cluster: nat): nat {
      if cluster >= CLUSTER_FIRST then (cluster - CLUSTER_FIRST) * sectorsPerCluster + dataStart else rootDirStart
    }

    /** The byte address of a cluster of the data area. */
    function ClusterAddr(cluster: nat): nat {
      ByteOffset(ClusterToSector(cluster), bytesPerSector)
    }
  }

  /** The first byte behind the table: the root directory and the data area start here. */
  function DataFrom(g: Geometry): nat {
    ByteOffset(g.rootDirStart, g.bytesPerSector)
  }

  /** The bytes of the table in use, up to the entry behind the last cluster's. */
  ghost predicate InTable(g: Geometry, a: nat) {
    var from := ByteOffset(g.fatStart, g.bytesPerSector);
    from <= a < from + EntryEnd(g.filesysType, g.lastCluster + 1)
  }

  /** Before the root directory and the data area nothing differs but the table in use: not the boot
      sector, not the other reserved sectors, not the other copies of the table. */
  ghost predicate SameSystem(g: Geometry, v: seq<byte>, v': seq<byte>) {
    && |v| == |v'|
    && forall a: nat {:trigger v'[a]} :: a < |v| && a < DataFrom(g) && !InTable(g, a) ==> v'[a] == v[a]
  }

  /** The bytes of all clusters. */
  ghost predicate InData(g: Geometry, a: nat) {
    g.ClusterAddr(CLUSTER_FIRST) <= a < g.ClusterAddr(g.lastCluster + 1)
  }

  lemma SameSystemTrans(g: Geometry, u: seq<byte>, v: seq<byte>, w: seq<byte>)
    requires SameSystem(g, u, v) && SameSystem(g, v, w)
    ensures SameSystem(g, u, w)
  {
    hide DataFrom, InTable;
    forall a: nat | a < |u| && a < DataFrom(g) && !InTable(g, a) ensures w[a] == u[a] {
      assert v[a] == u[a];
    }
  }

  lemma GeometryBounds(g: Geometry)
    requires g.Valid()
    ensures && MIN_SECTOR_SIZE <= g.bytesPerSector
            && g.bytesPerSector % DIR_ENTRY_DATA_SIZE == 0
            && 0 < g.sectorsPerCluster
    ensures CLUSTER_FIRST <= g.lastCluster < EofFrom(g.filesysType) < CLUSTER_EOF
    ensures g.rootDirStart <= g.dataStart <= g.endOfPartition
  {
    MulMono(0, g.lastCluster - 1, g.sectorsPerCluster);
  }

  /** The first cluster starts the data area; the clusters lie side by side in it, behind the table,
      inside the partition. */
  lemma ClusterPlace(g: Geometry, c: nat)
    requires g.Valid() && g.IsValidCluster(c)
    ensures g.ClusterToSector(CLUSTER_FIRST) == g.dataStart <= g.ClusterToSector(c)
    ensures g.ClusterToSector(c) + g.sectorsPerCluster == g.ClusterToSector(c + 1)
    ensures g.ClusterToSector(c) + g.sectorsPerCluster <= g.endOfPartition
    ensures g.ClusterAddr(c) + g.BytesPerCluster() == g.ClusterAddr(c + 1)
    ensures g.ClusterAddr(c) + g.BytesPerCluster() <= ByteOffset(g.endOfPartition, g.bytesPerSector)
    ensures ByteOffset(g.rootDirStart, g.bytesPerSector) <= ByteOffset(g.dataStart, g.bytesPerSector)
            <= g.ClusterAddr(c)
  {
    hide ByteOffset;
    MulMono(c - 2, g.lastCluster - 2, g.sectorsPerCluster);
    MulMono(g.lastCluster - 2, g.lastCluster - 1, g.sectorsPerCluster);
    OffsetAdd(g.ClusterToSector(c), g.sectorsPerCluster, g.bytesPerSector);
    OffsetMono(g.ClusterToSector(c) + g.sectorsPerCluster, g.endOfPartition, g.bytesPerSector);
    OffsetMono(g.dataStart, g.ClusterToSector(c), g.bytesPerSector);
    OffsetMono(g.rootDirStart, g.dataStart, g.bytesPerSector);
  }

  lemma ClusterAfter(g: Geometry, c: nat)
    requires c >= CLUSTER_FIRST
    ensures g.ClusterToSector(c) + g.sectorsPerCluster == g.ClusterToSector(c + 1)
    ensures 0 < g.sectorsPerCluster ==> g.dataStart <= g.ClusterToSector(c)
  {
    MulMono(0, c - 2, g.sectorsPerCluster);
  }

  /** n clusters further on is n times the cluster size further on. */
  lemma ClusterDistance(g: Geometry, c: nat, n: nat)
    requires g.Valid() && g.IsValidCluster(c)
    ensures g.ClusterAddr(c + n) == g.ClusterAddr(c) + n * g.BytesPerCluster()
  {
    hide ByteOffset;
    var spc, b := g.sectorsPerCluster, g.bytesPerSector;
    assert (c - 2 + n) * spc == (c - 2) * spc + n * spc;
    OffsetAdd(g.ClusterToSector(c), n * spc, b);
    OffsetMul(n, spc, b);
  }

  lemma OffsetMul(n: nat, a: nat, m: nat)
    ensures ByteOffset(n * a, m) == n * ByteOffset(a, m)
  {
  }

  /** Different clusters do not overlap. */
  lemma ClustersApart(g: Geometry, c: nat, d: nat)
    requires g.Valid() && g.IsValidCluster(c) && g.IsValidCluster(d) && c != d
    ensures g.ClusterAddr(c) + g.BytesPerCluster() <= g.ClusterAddr(d)
         || g.ClusterAddr(d) + g.BytesPerCluster() <= g.ClusterAddr(c)
  {
    hide ByteOffset;
    var lo, hi := if c < d then c else d, if c < d then d else c;
    ClusterPlace(g, lo);
    ClusterDistance(g, lo, hi - lo);
    MulMono(1, hi - lo, g.BytesPerCluster());
  }

  /** The bytes of a cluster are among the bytes of all clusters. */
  lemma ClusterInData(g: Geometry, c: nat, a: nat)
    requires g.Valid() && g.IsValidCluster(c) && g.ClusterAddr(c) <= a < g.ClusterAddr(c) + g.BytesPerCluster()
    ensures InData(g, a)
  {
    hide ByteOffset;
    ClusterPlace(g, c);
    ClusterDistance(g, CLUSTER_FIRST, c - CLUSTER_FIRST);
    ClusterDistance(g, c, g.lastCluster + 1 - c);
    MulMono(1, g.lastCluster + 1 - c, g.BytesPerCluster());
    MulMono(0, c - CLUSTER_FIRST, g.BytesPerCluster());
  }
}
