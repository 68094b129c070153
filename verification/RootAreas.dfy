/** The root directory of a 12- or 16-bit volume as the boot sector describes it. */
module RootAreas {
  import opened Bytes
  import opened Pages
  import opened Layout
  import opened Fat
  import opened FileSpec
  import opened Handles
  import opened Mount
  import opened Slots
  import opened DirBytes

  /** The first byte behind the reserved sectors and all tables. */
  function BehindTables(b: Bpb, start: nat): int {
    (start + b.reserved + b.numFATs * b.sectorsPerFat) * b.bytesPerSector
  }

  /** Its slots lie directly behind the tables, one after the other.  There are as many as the boot
      sector says if and only if they fill whole sectors: the code rounds down. */
  lemma RootSlotsAre(b: Bpb, start: nat, g: Geometry, s: Snap)
    requires Laid(b, start, g) && DirOk(g, s, FAT16_ROOT_DIR_CLUSTER)
    ensures |DirSlots(g, s, 0)| <= b.rootEntries && 0 < b.bytesPerSector
    ensures |DirSlots(g, s, 0)| == b.rootEntries <==> 32 * b.rootEntries % b.bytesPerSector == 0
    ensures 0 <= BehindTables(b, start)
    ensures forall i :: 0 <= i < |DirSlots(g, s, 0)| ==>
              SlotFrom(s.view, BehindTables(b, start) + 32 * i, DirSlots(g, s, 0)[i])
  {
    hide ByteOffset, Chains.WellFormed, DirSlots, Geometry.Valid, Laid, BehindTables;
    RootCount(b, start, g, s);
    NoChainAtFree(g, s);
    SlotsPlace(g, s);
    TablesEnd(b, start, g);
  }

  /** The slot is the 32 bytes from a on. */
  predicate SlotFrom(view: seq<byte>, a: nat, slot: Slot) {
    a + 32 <= |view| && slot == view[a..a + 32]
  }

  lemma TablesEnd(b: Bpb, start: nat, g: Geometry)
    requires Laid(b, start, g)
    ensures BehindTables(b, start) == DataFrom(g)
  {
    hide ByteOffset;
    OffsetIs(g.rootDirStart, g.bytesPerSector);
  }

  lemma RootCount(b: Bpb, start: nat, g: Geometry, s: Snap)
    requires Laid(b, start, g) && DirOk(g, s, 0)
    ensures |DirSlots(g, s, 0)| <= b.rootEntries && 0 < b.bytesPerSector
    ensures |DirSlots(g, s, 0)| == b.rootEntries <==> 32 * b.rootEntries % b.bytesPerSector == 0
  {
    hide ByteOffset, Chains.WellFormed, DirSlots, Geometry.Valid;
    GeometryBounds(g);
    NoChainAtFree(g, s);
    DirSize(g, s, 0);
    var root := g.dataStart - g.rootDirStart;
    OffsetIs(root, g.bytesPerSector);
    WholeSectors(32 * b.rootEntries, root, b.bytesPerSector);
  }

  lemma WholeSectors(x: nat, q: nat, m: nat)
    requires 0 < m && q * m <= x < (q + 1) * m
    ensures x / m == q && (x == q * m <==> x % m == 0)
  {
    DivBounds(x, m);
    var p := x / m;
    if p < q { MulMono(p + 1, q, m); }
    if q < p { MulMono(q + 1, p, m); }
  }

  lemma SlotsPlace(g: Geometry, s: Snap)
    requires DirOk(g, s, 0) && 0 !in s.fs.chains
    ensures forall i :: 0 <= i < |DirSlots(g, s, 0)| ==> SlotFrom(s.view, DataFrom(g) + 32 * i, DirSlots(g, s, 0)[i])
  {
    hide ByteOffset, Chains.WellFormed, Geometry.Valid;
    RootAreaFits(g);
    var from, to := DataFrom(g), ByteOffset(g.dataStart, g.bytesPerSector);
    forall i | 0 <= i < |DirSlots(g, s, 0)| ensures SlotFrom(s.view, from + 32 * i, DirSlots(g, s, 0)[i]) {
      assert s.view[from..to][32 * i..32 * i + 32] == s.view[from + 32 * i..from + 32 * i + 32];
    }
  }

  /** The first cluster lies behind as many sectors of root directory as its entries fill. */
  lemma FirstClusterIs(b: Bpb, start: nat, g: Geometry)
    requires Laid(b, start, g) && 0 < b.bytesPerSector
    ensures g.ClusterToSector(CLUSTER_FIRST)
            == start + b.reserved + b.numFATs * b.sectorsPerFat + 32 * b.rootEntries / b.bytesPerSector
  {
    WholeSectors(32 * b.rootEntries, g.dataStart - g.rootDirStart, b.bytesPerSector);
  }
}
