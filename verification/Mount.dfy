/** Mounting: the fixed numbers of a volume, computed from its boot sector (source/partition.c). */
module Mount {
  import opened Bytes
  import opened Pages
  import opened Layout
  import opened FatEntries

  const BPB_bytesPerSector: nat := 0x0B
  const BPB_sectorsPerCluster: nat := 0x0D
  const BPB_reservedSectors: nat := 0x0E
  const BPB_numFATs: nat := 0x10
  const BPB_rootEntries: nat := 0x11
  const BPB_numSectorsSmall: nat := 0x13
  const BPB_sectorsPerFAT: nat := 0x16
  const BPB_numSectors: nat := 0x20
  const BPB_FAT32_sectorsPerFAT32: nat := 0x24
  const BPB_FAT32_extFlags: nat := 0x28
  const BPB_FAT32_rootClus: nat := 0x2C

  const WORD: nat := 0x1_0000_0000

  /** The parameter block as the code reads it: the 32-bit fields stand in where the 16-bit ones are 0. */
  datatype Bpb = Bpb(bytesPerSector: nat, sectorsPerCluster: nat, reserved: nat, numFATs: nat, rootEntries: nat,
                     numSectors: nat, sectorsPerFat: nat, extFlags: nat, rootClus: nat)
  {
    /** The sectors before the data area. */
    function SystemArea(): nat
      requires bytesPerSector > 0
    {
      reserved + numFATs * sectorsPerFat + rootEntries * DIR_ENTRY_DATA_SIZE / bytesPerSector
    }

    function Clusters(): nat
      requires 0 < bytesPerSector && 0 < sectorsPerCluster && SystemArea() <= numSectors
    {
      (numSectors - SystemArea()) / sectorsPerCluster
    }

    /** The copy of the table the code works on. */
    function ActiveFat(t: FsType): nat {
      if t == FS_FAT32 && extFlags / 0x80 % 2 == 0 then extFlags % 0x10 else 0
    }

    /** The copies that whoever wrote the volume before kept up to date: all of them, unless bit 7 of
        the flags says that it was only the one numbered in bits 0 to 3 ("FAT Data Structure"
        and the field BPB_ExtFlags in Microsoft's specification). */
    predicate UpToDate(t: FsType, k: nat) {
      k < numFATs && (t == FS_FAT32 && extFlags / 0x80 % 2 == 1 ==> k == extFlags % 0x10)
    }

    /** The numbers of a volume that starts at this sector. */
    function Numbers(start: nat): (g: Geometry)
      requires 0 < bytesPerSector && 0 < sectorsPerCluster && SystemArea() <= numSectors
    {
      var n, t := Clusters(), TypeOf(Clusters());
      var tables := start + reserved;
      Geometry(t, tables + ActiveFat(t) * sectorsPerFat, tables + numFATs * sectorsPerFat, start + SystemArea(),
                        if t == FS_FAT32 then rootClus else FAT16_ROOT_DIR_CLUSTER,
                        numSectors, bytesPerSector, sectorsPerCluster, n + 1, start + numSectors)
    }
  }

  /** The code works on a table that is up to date exactly if the flags, on a 32-bit volume, name an
      existing table with bit 7 clear, or the first one with it set: it reads the bit the wrong way. */
  lemma ActiveIsUpToDate(b: Bpb, t: FsType)
    requires 0 < b.numFATs
    ensures b.UpToDate(t, b.ActiveFat(t)) <==>
            (t == FS_FAT32 ==>
               if b.extFlags / 0x80 % 2 == 0 then b.extFlags % 0x10 < b.numFATs else b.extFlags % 0x10 == 0)
  {
  }

  /** For example: two tables of which only the second is kept up to date.  The code takes the first. */
  const SECOND_TABLE: Bpb := Bpb(512, 1, 32, 2, 0, 71232, 600, 0x81, 2)

  lemma StaleTable()
    ensures SECOND_TABLE.SystemArea() <= SECOND_TABLE.numSectors && NoWrap(SECOND_TABLE, 0) && Consistent(SECOND_TABLE)
    ensures TypeOf(SECOND_TABLE.Clusters()) == FS_FAT32 && SECOND_TABLE.ActiveFat(FS_FAT32) == 0
    ensures forall k: nat :: SECOND_TABLE.UpToDate(FS_FAT32, k) <==> k == 1
  {
    assert SECOND_TABLE.Clusters() == 70000;
  }

  function TypeOf(clusters: nat): FsType {
    if clusters < CLUSTERS_PER_FAT12 then FS_FAT12 else if clusters < CLUSTERS_PER_FAT16 then FS_FAT16 else FS_FAT32
  }

  /** The thresholds keep all cluster numbers clear of the end-of-chain range for 12 and 16 bits;
      for 32 bits it takes a bound on the number of clusters. */
  lemma NumbersReadBack(clusters: nat)
    requires 1 <= clusters
    ensures (forall c: nat :: CLUSTER_FIRST <= c <= clusters + 1 ==> Normalize(TypeOf(clusters), c) == c)
       <==> (TypeOf(clusters) == FS_FAT32 ==> clusters + 1 < 0x0FFF_FFF7)
  {
    if clusters + 1 >= 0x0FFF_FFF7 {
      var c := clusters + 1;
      if c == CLUSTER_EOF {
        assert Normalize(TypeOf(clusters), 0x0FFF_FFF7) == CLUSTER_EOF;
      } else {
        assert Normalize(TypeOf(clusters), c) == CLUSTER_EOF;
      }
    }
  }

  /** The parameter block in the first sector of a partition. */
  function Parse(boot: seq<byte>): Bpb
    requires MIN_SECTOR_SIZE <= |boot|
  {
    var small, spf := ToU16(boot, BPB_numSectorsSmall), ToU16(boot, BPB_sectorsPerFAT);
    Bpb(ToU16(boot, BPB_bytesPerSector), boot[BPB_sectorsPerCluster], ToU16(boot, BPB_reservedSectors),
        boot[BPB_numFATs],
        ToU16(boot, BPB_rootEntries), if small == 0 then ToU32(boot, BPB_numSectors) else small,
        if spf == 0 then ToU32(boot, BPB_FAT32_sectorsPerFAT32)
        else spf, boot[BPB_FAT32_extFlags], ToU32(boot, BPB_FAT32_rootClus))
  }

  /** The sums of the 32-bit arithmetic do not wrap, and the data area starts inside the partition. */
  predicate NoWrap(b: Bpb, start: nat)
    requires 0 < b.bytesPerSector && 0 < b.sectorsPerCluster
  {
    && start + b.numSectors < CACHE_FREE && b.SystemArea() <= b.numSectors
    && start + b.reserved + b.ActiveFat(TypeOf(b.Clusters())) * b.sectorsPerFat < WORD
  }

  /** The areas of the volume follow each other: the reserved sectors, the tables, as many sectors of
      root directory as its entries fill, and as many clusters as the rest has room for. */
  ghost predicate Laid(b: Bpb, start: nat, g: Geometry) {
    var root, clusters := g.dataStart - g.rootDirStart, g.lastCluster - 1;
    && g.rootDirStart == start + b.reserved + b.numFATs * b.sectorsPerFat
    && 0 <= root && root * b.bytesPerSector <= 32 * b.rootEntries < (root + 1) * b.bytesPerSector
    && g.dataStart + clusters * b.sectorsPerCluster <= start + b.numSectors
    && start + b.numSectors < g.dataStart + (clusters + 1) * b.sectorsPerCluster
    && g.endOfPartition == start + b.numSectors && g.numberOfSectors == b.numSectors
    && g.bytesPerSector == b.bytesPerSector && g.sectorsPerCluster == b.sectorsPerCluster
    && (g.filesysType == FS_FAT12 <==> clusters <= 4084) && (g.filesysType == FS_FAT32 <==> 65525 <= clusters)
    && g.rootDirCluster == (if clusters < 65525 then 0 else b.rootClus)
    && g.fatStart == start + b.reserved
                     + (if clusters < 65525 || b.extFlags / 0x80 % 2 == 1 then 0
                        else b.extFlags % 0x10) * b.sectorsPerFat
  }

  lemma LaidOut(b: Bpb, start: nat)
    requires 0 < b.bytesPerSector && 0 < b.sectorsPerCluster && b.SystemArea() <= b.numSectors
    ensures Laid(b, start, b.Numbers(start))
  {
    Products(b);
    var root := b.rootEntries * 32 / b.bytesPerSector;
    DivBounds(b.rootEntries * 32, b.bytesPerSector);
    MulMono(root, root, b.bytesPerSector);
    var n := b.Clusters();
    DivBounds(b.numSectors - b.SystemArea(), b.sectorsPerCluster);
    MulMono(n, n, b.sectorsPerCluster);
    assert b.ActiveFat(TypeOf(n)) == if n < 65525 || b.extFlags / 0x80 % 2 == 1 then 0 else b.extFlags % 0x10;
  }

  /** Where the fields of the parameter block are, byte by byte. */
  lemma FieldsOfBlock(boot: seq<byte>)
    requires MIN_SECTOR_SIZE <= |boot|
    ensures var b := Parse(boot);
            && b.bytesPerSector == boot[11] as int + 0x100 * boot[12] as int && b.sectorsPerCluster == boot[13] as int
            && b.reserved == boot[14] as int + 0x100 * boot[15] as int && b.numFATs == boot[16] as int
            && b.rootEntries == boot[17] as int + 0x100 * boot[18] as int
            && b.numSectors == (if boot[19] == 0 && boot[20] == 0 then Word(boot, 32)
                                else boot[19] as int + 0x100 * boot[20] as int)
            && b.sectorsPerFat == (if boot[22] == 0 && boot[23] == 0 then Word(boot, 36)
                                   else boot[22] as int + 0x100 * boot[23] as int)
            && b.extFlags == boot[40] as int && b.rootClus == Word(boot, 44)
  {
  }

  /** Four bytes, the lowest first. */
  function Word(s: seq<byte>, i: nat): int
    requires i + 4 <= |s|
  {
    s[i] as int + 0x100 * s[i + 1] as int + 0x1_0000 * s[i + 2] as int + 0x100_0000 * s[i + 3] as int
  }

  /** What a parameter block has to satisfy for the volume to be usable.  No bound on the number of
      clusters is needed for 12 and 16 bits: the type thresholds see to it. */
  predicate Consistent(b: Bpb)
    requires 0 < b.bytesPerSector && 0 < b.sectorsPerCluster && b.SystemArea() <= b.numSectors
  {
    var n, t := b.Clusters(), TypeOf(b.Clusters());
    && 1 <= n && b.bytesPerSector % DIR_ENTRY_DATA_SIZE == 0
    && EntryEnd(t, n + 2) + b.ActiveFat(t) * b.sectorsPerFat * b.bytesPerSector
       <= b.numFATs * b.sectorsPerFat * b.bytesPerSector
    && (t == FS_FAT32 ==> n + 1 < EofFrom(FS_FAT32) && CLUSTER_FIRST <= b.rootClus <= n + 1)
  }

  /** The geometry arithmetic of _FAT_partition_constructor_buf, with its 32-bit wrap-around. */
  method ReadGeometry(boot: seq<byte>, startSector: nat) returns (ok: bool, g: Geometry)
    requires MIN_SECTOR_SIZE <= |boot| && startSector < WORD && boot[BPB_sectorsPerCluster] != 0
    ensures ok <==> MIN_SECTOR_SIZE <= Parse(boot).bytesPerSector <= MAX_SECTOR_SIZE
    ensures ok && NoWrap(Parse(boot), startSector) ==>
              && g == Parse(boot).Numbers(startSector) && Laid(Parse(boot), startSector, g)
              && (g.Valid() <==> Consistent(Parse(boot)))
  {
    hide ToU16, ToU32, Geometry.Valid, Consistent;
    ghost var b := Parse(boot);
    var sectorsPerFat := ToU16(boot, BPB_sectorsPerFAT);
    if sectorsPerFat == 0 { sectorsPerFat := ToU32(boot, BPB_FAT32_sectorsPerFAT32); }
    var numberOfSectors := ToU16(boot, BPB_numSectorsSmall);
    if numberOfSectors == 0 { numberOfSectors := ToU32(boot, BPB_numSectors); }
    var bytesPerSector := ToU16(boot, BPB_bytesPerSector);
    g := Geometry(FS_FAT12, 0, 0, 0, 0, 0, 0, 0, 0, 0);
    if bytesPerSector < MIN_SECTOR_SIZE || bytesPerSector > MAX_SECTOR_SIZE { return false, g; }
    ok := true;
    var sectorsPerCluster: nat := boot[BPB_sectorsPerCluster];
    var fatStart, rootDirStart, dataStart, clusterCount :=
      Areas(startSector, ToU16(boot, BPB_reservedSectors), boot[BPB_numFATs], sectorsPerFat,
            ToU16(boot, BPB_rootEntries), bytesPerSector, numberOfSectors, sectorsPerCluster, b);
    var lastCluster: nat := (clusterCount + CLUSTER_FIRST - 1) % WORD;
    var filesysType := FS_FAT32;
    if clusterCount < CLUSTERS_PER_FAT12 {
      filesysType := FS_FAT12;
    } else if clusterCount < CLUSTERS_PER_FAT16 {
      filesysType := FS_FAT16;
    }
    var rootDirCluster := FAT16_ROOT_DIR_CLUSTER;
    if filesysType == FS_FAT32 {
      rootDirCluster := ToU32(boot, BPB_FAT32_rootClus);
      fatStart := ActiveTable(fatStart, sectorsPerFat, boot[BPB_FAT32_extFlags], startSector, b);
    }
    g := Geometry(filesysType, fatStart, rootDirStart, dataStart, rootDirCluster, numberOfSectors, bytesPerSector,
                  sectorsPerCluster, lastCluster, (startSector + numberOfSectors) % WORD);
    if NoWrap(b, startSector) {
      ValidIsConsistent(b, startSector, g);
      LaidOut(b, startSector);
    }
  }

  /** The start of the copy of the table that is in use. */
  method ActiveTable(fatStart: nat, sectorsPerFat: nat, extFlags: nat, ghost start: nat, ghost b: Bpb)
    returns (active: nat)
    requires sectorsPerFat == b.sectorsPerFat && extFlags == b.extFlags
    ensures fatStart == start + b.reserved && fatStart + b.ActiveFat(FS_FAT32) * b.sectorsPerFat < WORD ==>
              active == fatStart + b.ActiveFat(FS_FAT32) * b.sectorsPerFat
  {
    active := fatStart;
    ghost var k := b.ActiveFat(FS_FAT32);
    MulMono(k, 0, sectorsPerFat);
    assert sectorsPerFat * k == k * sectorsPerFat;
    if extFlags / 0x80 % 2 == 0 {
      active := (fatStart + sectorsPerFat * (extFlags % 0x10)) % WORD;
    } else if fatStart < WORD {
      assert k == 0;
    }
  }

  /** Where the areas of the volume start and how many clusters fit, each value cut to 32 bits. */
  method Areas(startSector: nat, reservedSectors: nat, numFATs: nat, sectorsPerFat: nat, rootEntries: nat,
               bytesPerSector: nat, numberOfSectors: nat, sectorsPerCluster: nat, ghost b: Bpb)
    returns (fatStart: nat, rootDirStart: nat, dataStart: nat, clusterCount: nat)
    requires 0 < bytesPerSector && 0 < sectorsPerCluster
    requires && b.reserved == reservedSectors
             && b.numFATs == numFATs
             && b.sectorsPerFat == sectorsPerFat
             && b.rootEntries == rootEntries
    requires && b.bytesPerSector == bytesPerSector
             && b.numSectors == numberOfSectors
             && b.sectorsPerCluster == sectorsPerCluster
    ensures NoWrap(b, startSector) ==>
              && fatStart == startSector + b.reserved
              && rootDirStart == startSector + b.reserved + b.numFATs * b.sectorsPerFat
              && dataStart == startSector + b.SystemArea() && clusterCount == b.Clusters() < WORD - 1
  {
    fatStart := (startSector + reservedSectors) % WORD;
    rootDirStart := (fatStart + numFATs * sectorsPerFat) % WORD;
    dataStart := (rootDirStart + rootEntries * DIR_ENTRY_DATA_SIZE / bytesPerSector) % WORD;
    var sectors: nat := (numberOfSectors - (dataStart - startSector)) % WORD;
    clusterCount := sectors / sectorsPerCluster;
    if NoWrap(b, startSector) {
      Products(b);
      SumsFit(startSector, b.reserved, b.numFATs * b.sectorsPerFat,
              b.rootEntries * DIR_ENTRY_DATA_SIZE / b.bytesPerSector, b.numSectors);
      DivBounds(sectors, sectorsPerCluster);
      MulMono(1, sectorsPerCluster, clusterCount);
    }
  }

  lemma Products(b: Bpb)
    requires 0 < b.bytesPerSector
    ensures 0 <= b.numFATs * b.sectorsPerFat && 0 <= b.rootEntries * DIR_ENTRY_DATA_SIZE / b.bytesPerSector
  {
    MulMono(b.numFATs, 0, b.sectorsPerFat);
    DivBounds(b.rootEntries * DIR_ENTRY_DATA_SIZE, b.bytesPerSector);
  }

  lemma SumsFit(start: nat, reserved: nat, p: nat, r: nat, num: nat)
    requires start + num < CACHE_FREE && reserved + p + r <= num
    ensures (start + reserved) % WORD == start + reserved
    ensures (start + reserved + p) % WORD == start + reserved + p
    ensures (start + reserved + p + r) % WORD == start + reserved + p + r
    ensures (num - (reserved + p + r)) % WORD == num - (reserved + p + r)
  {
  }

  /** The geometry of a volume without wrap-around is valid exactly when its block is consistent. */
  lemma ValidIsConsistent(b: Bpb, start: nat, g: Geometry)
    requires MIN_SECTOR_SIZE <= b.bytesPerSector <= MAX_SECTOR_SIZE && 0 < b.sectorsPerCluster && NoWrap(b, start)
    requires g.filesysType == TypeOf(b.Clusters()) && g.lastCluster == b.Clusters() + 1
    requires && g.bytesPerSector == b.bytesPerSector
             && g.sectorsPerCluster == b.sectorsPerCluster
             && g.numberOfSectors == b.numSectors
    requires g.fatStart == start + b.reserved + b.ActiveFat(g.filesysType) * b.sectorsPerFat
    requires g.rootDirStart == start + b.reserved + b.numFATs * b.sectorsPerFat
    requires g.dataStart == start + b.SystemArea() && g.endOfPartition == start + b.numSectors
    requires g.rootDirCluster == if g.filesysType == FS_FAT32 then b.rootClus else FAT16_ROOT_DIR_CLUSTER
    ensures g.Valid() <==> Consistent(b)
  {
    hide ByteOffset, EntryEnd;
    var n, spc, bps := b.Clusters(), b.sectorsPerCluster, b.bytesPerSector;
    Products(b);
    DivBounds(b.numSectors - b.SystemArea(), spc);
    DivGrows(n, spc, b.numSectors);
    assert (g.lastCluster - 1) * spc == n * spc <= b.numSectors - b.SystemArea();
    assert g.lastCluster - 1 <= g.numberOfSectors / g.sectorsPerCluster;
    TableRoom(b, start, g);
  }

  /** The table fits in its copies in sectors as it does in bytes. */
  lemma TableRoom(b: Bpb, start: nat, g: Geometry)
    requires g.fatStart == start + b.reserved + b.ActiveFat(g.filesysType) * b.sectorsPerFat
    requires g.rootDirStart == start + b.reserved + b.numFATs * b.sectorsPerFat
    ensures ByteOffset(g.fatStart, b.bytesPerSector) + EntryEnd(g.filesysType, g.lastCluster + 1)
            <= ByteOffset(g.rootDirStart, b.bytesPerSector)
       <==> EntryEnd(g.filesysType, g.lastCluster + 1) + b.ActiveFat(g.filesysType) * b.sectorsPerFat * b.bytesPerSector
              <= b.numFATs * b.sectorsPerFat * b.bytesPerSector
  {
    hide ByteOffset, EntryEnd;
    MulMono(b.ActiveFat(g.filesysType), 0, b.sectorsPerFat);
    MulMono(b.numFATs, 0, b.sectorsPerFat);
    var a, f := b.ActiveFat(g.filesysType) * b.sectorsPerFat, b.numFATs * b.sectorsPerFat;
    OffsetAdd(start + b.reserved, a, b.bytesPerSector);
    OffsetAdd(start + b.reserved, f, b.bytesPerSector);
    OffsetIs(a, b.bytesPerSector);
    OffsetIs(f, b.bytesPerSector);
  }

  lemma DivGrows(n: nat, m: nat, x: nat)
    requires 0 < m && n * m <= x
    ensures n <= x / m
  {
    DivBounds(x, m);
    if x / m < n { MulMono(x / m + 1, n, m); }
  }
}
