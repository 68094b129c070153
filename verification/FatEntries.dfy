/** One entry of the file allocation table: 12, 16 or 32 bits wide, packed. */
module FatEntries {
  import opened Bytes
  import opened Pages
  import opened Layout

  /** The bytes before the entry of cluster c. */
  function EntryOffset(t: FsType, c: nat): nat {
    match t
    case FS_FAT12 => c * 3 / 2
    case FS_FAT16 => c * 2
    case FS_FAT32 => c * 4
  }

  function EntryAddr(g: Geometry, c: nat): nat {
    ByteOffset(g.fatStart, g.bytesPerSector) + EntryOffset(g.filesysType, c)
  }

  ghost predicate EntryFits(g: Geometry, view: seq<byte>, c: nat) {
    ByteOffset(g.fatStart, g.bytesPerSector) + EntryEnd(g.filesysType, c) <= |view|
  }

  /** The number stored for cluster c. */
  function RawEntry(g: Geometry, view: seq<byte>, c: nat): (v: nat)
    requires EntryFits(g, view, c)
  {
    var a := EntryAddr(g, c);
    match g.filesysType
    case FS_FAT12 => Unpacked12(c % 2 == 1, view[a], view[a + 1])
    case FS_FAT16 => ToU16(view, a)
    case FS_FAT32 => ToU32(view, a)
  }

  /** The i-th half byte of the table, the lower half of a byte first. */
  function Nibble(table: seq<byte>, i: nat): nat
    requires i / 2 < |table|
  {
    if i % 2 == 0 then table[i / 2] as nat % 16 else table[i / 2] as nat / 16
  }

  /** Where an entry is and what it is: three half bytes, two bytes or four bytes for every cluster
      number from 0 on, the lowest first. */
  lemma EntryBytes(g: Geometry, view: seq<byte>, c: nat)
    requires EntryFits(g, view, c)
    ensures var table := view[ByteOffset(g.fatStart, g.bytesPerSector)..];
            RawEntry(g, view, c) ==
              match g.filesysType
              case FS_FAT12 => Nibble(table, 3 * c) + 0x10 * Nibble(table, 3 * c + 1) + 0x100 * Nibble(table, 3 * c + 2)
              case FS_FAT16 => table[2 * c] as nat + 0x100 * table[2 * c + 1] as nat
              case FS_FAT32 => table[4 * c] as nat + 0x100 * table[4 * c + 1] as nat
                               + 0x1_0000 * table[4 * c + 2] as nat + 0x100_0000 * table[4 * c + 3] as nat
  {
    hide ByteOffset;
    var a := EntryAddr(g, c);
    if g.filesysType == FS_FAT12 {
      var k := c / 2;
      ThreeNibbles(view[a], view[a + 1], c % 2 == 1);
      if c % 2 == 1 {
        assert c == 2 * k + 1 && 3 * c == 2 * (3 * k + 1) + 1;
      } else {
        assert c == 2 * k && 3 * c == 2 * (3 * k);
      }
    }
  }

  lemma ThreeNibbles(b0: byte, b1: byte, odd: bool)
    ensures Unpacked12(odd, b0, b1) == if odd then b0 as int / 16 + 0x10 * (b1 as int % 16) + 0x100 * (b1 as int / 16)
                                       else b0 as int % 16 + 0x10 * (b0 as int / 16) + 0x100 * (b1 as int % 16)
  {
    var x, y, z, w := b0 as int / 16, b0 as int % 16, b1 as int / 16, b1 as int % 16;
    var v := b0 as int + b1 as int * 0x100;
    assert v == (x + 0x10 * w + 0x100 * z) * 0x10 + y;
    assert v == z * 0x1000 + (y + 0x10 * x + 0x100 * w);
    QuotientIs(v, x + 0x10 * w + 0x100 * z, y);
    RemainderIs(v, z, y + 0x10 * x + 0x100 * w);
  }

  lemma QuotientIs(v: nat, q: nat, r: nat)
    requires v == q * 0x10 + r && r < 0x10
    ensures v / 0x10 == q
  {
  }

  lemma RemainderIs(v: nat, q: nat, r: nat)
    requires v == q * 0x1000 + r && r < 0x1000
    ensures v % 0x1000 == r
  {
  }

  /** From which value on an entry is the end of a chain. */
  lemma EndMarks(v: nat)
    ensures Normalize(FS_FAT12, v) == 0x0FFF_FFFF <==> v >= 0x0FF7
    ensures Normalize(FS_FAT16, v) == 0x0FFF_FFFF <==> v >= 0xFFF7
    ensures Normalize(FS_FAT32, v) == 0x0FFF_FFFF <==> v >= 0x0FFF_FFF7
    ensures forall t :: Normalize(t, v) == 0x0FFF_FFFF || Normalize(t, v) == v
  {
  }

  function Normalize(t: FsType, v: nat): nat {
    if v >= EofFrom(t) then CLUSTER_EOF else v
  }

  /** What the next-cluster lookup answers: the entry, with the whole end-of-chain
      range as CLUSTER_EOF; the pseudo cluster 0 has no successor. */
  function Link(g: Geometry, view: seq<byte>, c: nat): nat
    requires EntryFits(g, view, c)
  {
    if c == CLUSTER_FREE then CLUSTER_FREE else Normalize(g.filesysType, RawEntry(g, view, c))
  }

  function Capacity(t: FsType): nat {
    match t
    case FS_FAT12 => 0x1000
    case FS_FAT16 => 0x1_0000
    case FS_FAT32 => 0x1_0000_0000
  }

  /** The bytes of the entry after storing value v over the bytes b0, b1 (12 bits only). */
  function Packed12(odd: bool, v: nat, b0: byte, b1: byte): (p: seq<byte>)
    ensures |p| == 2
  {
    if odd then [v % 0x10 * 0x10 + b0 as int % 0x10, v / 0x10 % 0x100]
    else [v % 0x100, v / 0x100 % 0x10 + b1 as int / 0x10 * 0x10]
  }

  function StoreEntry(g: Geometry, view: seq<byte>, c: nat, v: nat): (r: seq<byte>)
    requires EntryFits(g, view, c)
    ensures |r| == |view|
  {
    var a := EntryAddr(g, c);
    match g.filesysType
    case FS_FAT12 => Splice(view, a, Packed12(c % 2 == 1, v, view[a], view[a + 1]))
    case FS_FAT16 => Splice(view, a, LittleEndian(v, 2))
    case FS_FAT32 => Splice(view, a, LittleEndian(v, 4))
  }

  function Unpacked12(odd: bool, b0: int, b1: int): nat
    requires 0 <= b0 && 0 <= b1
  {
    if odd then (b0 + b1 * 0x100) / 0x10 else (b0 + b1 * 0x100) % 0x1000
  }

  lemma PackRoundTrip(odd: bool, v: nat, b0: byte, b1: byte)
    ensures var p := Packed12(odd, v, b0, b1); Unpacked12(odd, p[0], p[1]) == v % 0x1000
  {
    if odd {
      PackOdd(v, b0 as int % 0x10);
    } else {
      PackEven(v, b1 as int / 0x10);
    }
  }

  lemma PackOdd(v: nat, r: nat)
    requires r < 0x10
    ensures (v % 0x10 * 0x10 + r + v / 0x10 % 0x100 * 0x100) / 0x10 == v % 0x1000
  {
    var l, q := v % 0x10, v / 0x10;
    var h, k := q % 0x100, q / 0x100;
    assert l * 0x10 + r + h * 0x100 == (l + h * 0x10) * 0x10 + r;
    assert v == k * 0x1000 + (l + h * 0x10);
  }

  lemma PackEven(v: nat, r: nat)
    requires r < 0x10
    ensures (v % 0x100 + (v / 0x100 % 0x10 + r * 0x10) * 0x100) % 0x1000 == v % 0x1000
  {
    var l, q := v % 0x100, v / 0x100;
    var h, k := q % 0x10, q / 0x10;
    assert l + (h + r * 0x10) * 0x100 == r * 0x1000 + (l + h * 0x100);
    assert v == k * 0x1000 + (l + h * 0x100);
  }

  /** The nibble that belongs to the neighbour survives, and so does what it unpacks to. */
  lemma SharedByte(v: nat, b0: byte, b1: byte, other: byte)
    ensures Unpacked12(false, other, Packed12(true, v, b0, b1)[0]) == Unpacked12(false, other, b0)
    ensures Unpacked12(true, Packed12(false, v, b0, b1)[1], other) == Unpacked12(true, b1, other)
  {
    SharedLow(v, b0, b1, other);
    SharedHigh(v, b0, b1, other);
  }

  lemma SharedLow(v: nat, b0: byte, b1: byte, other: byte)
    ensures Unpacked12(false, other, Packed12(true, v, b0, b1)[0]) == Unpacked12(false, other, b0)
  {
    var n := Packed12(true, v, b0, b1)[0] as int;
    assert n % 0x10 == b0 as int % 0x10;
    LowNibble(other, n);
    LowNibble(other, b0);
  }

  lemma SharedHigh(v: nat, b0: byte, b1: byte, other: byte)
    ensures Unpacked12(true, Packed12(false, v, b0, b1)[1], other) == Unpacked12(true, b1, other)
  {
    var m := Packed12(false, v, b0, b1)[1] as int;
    assert m / 0x10 == b1 as int / 0x10;
    HighNibble(m, other);
    HighNibble(b1, other);
  }

  lemma LowNibble(x: byte, y: int)
    requires 0 <= y
    ensures (x as int + y * 0x100) % 0x1000 == x as int + y % 0x10 * 0x100
  {
    assert x as int + y * 0x100 == y / 0x10 * 0x1000 + (x as int + y % 0x10 * 0x100);
  }

  lemma HighNibble(x: int, y: byte)
    requires 0 <= x
    ensures (x + y as int * 0x100) / 0x10 == x / 0x10 + y as int * 0x10
  {
  }

  /** Reading back what was stored: the value, cut to the width of the entry. */
  lemma LoadStored(g: Geometry, view: seq<byte>, c: nat, v: nat)
    requires EntryFits(g, view, c)
    ensures RawEntry(g, StoreEntry(g, view, c, v), c) == v % Capacity(g.filesysType)
  {
    hide ByteOffset, Splice, Packed12;
    var a := EntryAddr(g, c);
    match g.filesysType
    case FS_FAT12 => PackRoundTrip(c % 2 == 1, v, view[a], view[a + 1]);
    case FS_FAT16 => LoadStore16(view, a, v);
    case FS_FAT32 => LoadStore32(view, a, v);
  }

  /** Storing one entry leaves every other entry as it was, also the neighbour that
      shares a byte with it. */
  lemma OthersKept(g: Geometry, view: seq<byte>, c: nat, v: nat, d: nat)
    requires EntryFits(g, view, c) && EntryFits(g, view, d) && c != d
    ensures RawEntry(g, StoreEntry(g, view, c, v), d) == RawEntry(g, view, d)
  {
    hide ByteOffset, Splice, Packed12;
    if g.filesysType == FS_FAT12 {
      var a, e := EntryAddr(g, c), EntryAddr(g, d);
      Halves(c);
      Halves(d);
      assert || e + 1 < a
             || a + 1 < e
             || (e == a + 1 && d % 2 == 1 && c % 2 == 0)
             || (e + 1 == a && d % 2 == 0 && c % 2 == 1);
      if e == a + 1 {
        SharedByte(v, view[a], view[a + 1], view[e + 1]);
      } else if e + 1 == a {
        SharedByte(v, view[a], view[a + 1], view[e]);
      }
    }
  }

  lemma Halves(c: nat)
    ensures c * 3 / 2 == if c % 2 == 1 then c / 2 * 3 + 1 else c / 2 * 3
  {
    assert c == c / 2 * 2 + c % 2;
  }

  /** Storing one entry changes no byte outside the table. */
  lemma StoreFrame(g: Geometry, view: seq<byte>, c: nat, v: nat, i: nat)
    requires EntryFits(g, view, c) && i < |view|
    requires i < ByteOffset(g.fatStart, g.bytesPerSector)
          || ByteOffset(g.fatStart, g.bytesPerSector) + EntryEnd(g.filesysType, c) <= i
    ensures StoreEntry(g, view, c, v)[i] == view[i]
  {
    hide ByteOffset;
  }

  /** Table round trip for the three widths.  A link written for a cluster reads back as
      itself, or as the end of the chain when it lies in that range, and the links of all
      other clusters stay. */
  lemma LinkAfterStore(g: Geometry, view: seq<byte>, c: nat, v: nat, d: nat)
    requires EntryFits(g, view, c) && EntryFits(g, view, d) && c != CLUSTER_FREE
    ensures Link(g, StoreEntry(g, view, c, v), d) ==
            if d == c then Normalize(g.filesysType, v % Capacity(g.filesysType)) else Link(g, view, d)
  {
    hide ByteOffset;
    if c == d { LoadStored(g, view, c, v); } else { OthersKept(g, view, c, v, d); }
  }

  /** On a mounted volume a valid cluster number is stored and read back unharmed. */
  lemma ValidLinkSurvives(g: Geometry, v: nat)
    requires g.Valid() && (v < EofFrom(g.filesysType) || v == CLUSTER_EOF)
    ensures StoredLink(g, v) == v
  {
  }

  // ---- the links of the whole table ----

  /** The links of clusters 0 .. lastCluster + 1; the last one is the slot past the end,
      which the free-cluster search may look at. */
  function Links(g: Geometry, view: seq<byte>): (l: seq<nat>)
    requires EntryFits(g, view, g.lastCluster + 1)
    ensures |l| == g.lastCluster + 2
  {
    seq(g.lastCluster + 2, c requires 0 <= c < g.lastCluster + 2 => FitsBelow(g, view, c); Link(g, view, c))
  }

  lemma FitsBelow(g: Geometry, view: seq<byte>, c: nat)
    requires EntryFits(g, view, g.lastCluster + 1) && c <= g.lastCluster + 1
    ensures EntryFits(g, view, c)
  {
    hide ByteOffset;
  }

  /** The link a stored value reads back as. */
  function StoredLink(g: Geometry, v: nat): nat {
    Normalize(g.filesysType, v % Capacity(g.filesysType))
  }

  lemma LinksStore(g: Geometry, view: seq<byte>, c: nat, v: nat)
    requires g.Valid() && EntryFits(g, view, g.lastCluster + 1) && g.IsValidCluster(c)
    ensures EntryFits(g, view, c)
    ensures Links(g, StoreEntry(g, view, c, v)) == Links(g, view)[c := StoredLink(g, v)]
  {
    hide ByteOffset;
    FitsBelow(g, view, c);
    var view' := StoreEntry(g, view, c, v);
    forall d: nat | d <= g.lastCluster + 1
      ensures Links(g, view')[d] == Links(g, view)[c := StoredLink(g, v)][d]
    {
      FitsBelow(g, view, d);
      LinkAfterStore(g, view, c, v, d);
    }
  }

  /** The links depend on the bytes in front of the root directory only. */
  lemma LinksFrame(g: Geometry, view: seq<byte>, view': seq<byte>)
    requires g.Valid() && EntryFits(g, view, g.lastCluster + 1) && |view| == |view'|
    requires ByteOffset(g.rootDirStart, g.bytesPerSector) <= |view|
    requires view[..ByteOffset(g.rootDirStart, g.bytesPerSector)]
             == view'[..ByteOffset(g.rootDirStart, g.bytesPerSector)]
    ensures Links(g, view) == Links(g, view')
  {
    hide ByteOffset;
    var n := ByteOffset(g.rootDirStart, g.bytesPerSector);
    forall d: nat | d <= g.lastCluster + 1
      ensures Links(g, view)[d] == Links(g, view')[d]
    {
      FitsBelow(g, view, d);
      assert ByteOffset(g.fatStart, g.bytesPerSector) + EntryEnd(g.filesysType, d) <= n;
      assert forall i :: 0 <= i < n ==> view[i] == view[..n][i] == view'[..n][i] == view'[i];
      assert RawEntry(g, view, d) == RawEntry(g, view', d);
    }
  }
}
