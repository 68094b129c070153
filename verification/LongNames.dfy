/** Storing a long name in slots, so that the enumerator reads it back (source/directory.c). */
module LongNames {
  import opened Bytes
  import opened Names
  import opened Slots

  /** The name in a buffer of 256 units, the rest of it zero. */
  function Buffer(name: Text): (b: Text)
    requires |name| < MAX_LFN_LENGTH
    ensures |b| == MAX_LFN_LENGTH && b[..|name|] == name && forall i :: |name| <= i < |b| ==> b[i] == 0
  {
    name + seq(MAX_LFN_LENGTH - |name|, i => 0)
  }

  /** Copies the name to the buffer. */
  method CopyName(lfn: array<nat>, name: Text)
    requires lfn.Length == MAX_LFN_LENGTH && |name| < MAX_LFN_LENGTH && forall i :: 0 <= i < lfn.Length ==> lfn[i] == 0
    modifies lfn
    ensures lfn[..] == Buffer(name)
  {
    var count := 0;
    while count < MAX_LFN_LENGTH - 1 && count < |name|
      invariant 0 <= count <= |name|
      invariant forall i :: 0 <= i < lfn.Length ==> lfn[i] == if i < count then name[i] else 0
    {
      lfn[count] := name[count];
      count := count + 1;
    }
    lfn[count] := 0;
    assert lfn[..] == Buffer(name);
  }

  /** The slots a name takes, besides the alias. */
  function Parts(n: nat): (r: nat)
    ensures n <= 13 * r < n + 13
  {
    (n + 12) / 13
  }

  /** All units of all parts lie in the buffer exactly for names of up to 247 units; longer ones, which
      the length check lets pass, make the code read behind it. */
  lemma PartsInBuffer(n: nat)
    requires n < MAX_LFN_LENGTH
    ensures 13 * Parts(n) <= MAX_LFN_LENGTH <==> n <= 247
  {
  }

  /** The units of part k, counted from 1: behind the end of the name a zero, then padding. */
  function PartUnits(buf: Text, k: nat): (u: Text)
    requires 1 <= k && 13 * k <= |buf|
    ensures |u| == 13
  {
    seq(13, j requires 0 <= j < 13 => PartUnit(buf, k, j))
  }

  function PartUnit(buf: Text, k: nat, j: nat): nat
    requires 1 <= k && 13 * k <= |buf| && j < 13
  {
    var at := 13 * (k - 1) + j;
    if buf[at] != 0 then buf[at] else if j > 1 && buf[at - 1] == 0 then 0xFFFF else 0
  }

  /** A long-name slot with the given units. */
  ghost predicate Holds(slot: Slot, ordinal: nat, units: Text, chkSum: nat) {
    && |slot| == SLOT_SIZE && |units| == 13
    && slot[0] as nat == ordinal && slot[LFN_offset_checkSum] as nat == chkSum && IsLfn(slot)
    && slot[0x0C] == 0 && ToU16(slot, LFN_offset_reserved2) == 0
    && Units(slot) == units
  }

  /** The bytes of a slot that holds a part, one by one. */
  lemma BytesOfPart(slot: Slot, ordinal: nat, units: Text, chkSum: nat, k: nat)
    requires Holds(slot, ordinal, units, chkSum) && k < 13
    ensures slot[0] as nat == ordinal && slot[11] == 0x0F && slot[12] == 0 && slot[13] as nat == chkSum
    ensures slot[26] == 0 && slot[27] == 0
    ensures var a := [1, 3, 5, 7, 9, 14, 16, 18, 20, 22, 24, 28, 30][k];
            units[k] == slot[a] as int + 0x100 * slot[a + 1] as int
  {
    UnitBytes(slot, k);
  }

  /** The numbers of the parts: counted down to 1, the first with 0x40 added. */
  lemma NumbersOfParts(lfns: seq<Slot>, name: Text, chkSum: nat, j: nat)
    requires NameParts(lfns, name, chkSum) && j < |lfns|
    ensures lfns[j][0] as nat == if j == 0 then 0x40 + |lfns| else |lfns| - j
  {
  }

  /** Fills a slot with part i - 1 of the name. */
  method WritePart(lfnEntry: array<byte>, lfn: array<nat>, i: nat, entrySize: nat, aliasCheckSum: byte)
    requires && lfnEntry.Length == SLOT_SIZE
             && lfn.Length == MAX_LFN_LENGTH
             && 2 <= i <= entrySize
             && 13 * (i - 1) <= MAX_LFN_LENGTH
    requires forall k :: 0 <= k < lfn.Length ==> lfn[k] < 0x1_0000
    modifies lfnEntry
    ensures Holds(lfnEntry[..], i - 1 + (if i == entrySize then LFN_END else 0), PartUnits(lfn[..], i - 1),
                  aliasCheckSum)
  {
    hide ToU16, Units;
    var ordinal := i - 1 + (if i == entrySize then LFN_END else 0);
    WriteUnits(lfnEntry, lfn, i);
    ghost var units, filled := PartUnits(lfn[..], i - 1), lfnEntry[..];
    lfnEntry[0] := ordinal;
    lfnEntry[LFN_offset_checkSum] := aliasCheckSum;
    lfnEntry[DIR_ENTRY_attributes] := ATTRIB_LFN;
    lfnEntry[0x0C] := 0;
    ghost var before := lfnEntry[..];
    LoadStore16(before, LFN_offset_reserved2, 0);
    U16ToU8Array(lfnEntry, LFN_offset_reserved2, 0);
    FieldsKeepUnits(filled, lfnEntry[..], units);
  }

  /** The thirteen units of the part. */
  method WriteUnits(lfnEntry: array<byte>, lfn: array<nat>, i: nat)
    requires lfnEntry.Length == SLOT_SIZE && lfn.Length == MAX_LFN_LENGTH && 2 <= i && 13 * (i - 1) <= MAX_LFN_LENGTH
    requires forall k :: 0 <= k < lfn.Length ==> lfn[k] < 0x1_0000
    modifies lfnEntry
    ensures forall k :: 0 <= k < 13 ==> ToU16(lfnEntry[..], UnitOffset(k)) == PartUnits(lfn[..], i - 1)[k]
  {
    hide ToU16;
    ghost var units := PartUnits(lfn[..], i - 1);
    var j := 0;
    while j < 13
      invariant 0 <= j <= 13
      invariant forall k :: 0 <= k < j ==> ToU16(lfnEntry[..], UnitOffset(k)) == units[k]
    {
      var at := (i - 2) * 13 + j;
      var unit := lfn[at];
      if lfn[at] == 0 {
        if j > 1 && lfn[at - 1] == 0 { unit := 0xFFFF; } else { unit := 0x0000; }
      }
      ghost var before := lfnEntry[..];
      OffsetsApart(j);
      LoadStore16(before, UnitOffset(j), unit);
      forall k | 0 <= k < j
        ensures ToU16(Splice(before, UnitOffset(j), LittleEndian(unit, 2)), UnitOffset(k)) == units[k]
      {
        OffsetsApart(k);
        LoadElsewhere(before, UnitOffset(j), LittleEndian(unit, 2), UnitOffset(k));
      }
      U16ToU8Array(lfnEntry, UnitOffset(j), unit);
      j := j + 1;
    }
  }

  lemma LoadElsewhere(s: seq<byte>, at: nat, d: seq<byte>, o: nat)
    requires at + |d| <= |s| && o + 2 <= |s| && (o + 2 <= at || at + |d| <= o)
    ensures ToU16(Splice(s, at, d), o) == ToU16(s, o)
  {
  }

  /** The other fields lie between the units. */
  lemma FieldsKeepUnits(filled: Slot, slot: Slot, units: Text)
    requires |filled| == |slot| == SLOT_SIZE && |units| == 13
    requires forall k :: 0 <= k < 13 ==> ToU16(filled, UnitOffset(k)) == units[k]
    requires forall b :: 0 < b < SLOT_SIZE && b != 0x0B && b != 0x0C && b != 0x0D && b != 0x1A && b != 0x1B ==>
               slot[b] == filled[b]
    ensures Units(slot) == units
  {
    forall k | 0 <= k < 13 ensures ToU16(slot, UnitOffset(k)) == units[k] {
      OffsetsApart(k);
      assert ToU16(slot, UnitOffset(k)) == ToU16(filled, UnitOffset(k));
    }
  }

  /** The places of the units do not overlap each other nor the other fields. */
  lemma OffsetsApart(j: nat)
    requires j < 13
    ensures 0 < UnitOffset(j) && UnitOffset(j) + 2 <= SLOT_SIZE
    ensures forall k :: 0 <= k < j ==> UnitOffset(k) + 2 <= UnitOffset(j)
    ensures UnitOffset(j) + 2 <= 0x0B || 0x0E <= UnitOffset(j)
    ensures UnitOffset(j) + 2 <= LFN_offset_reserved2 || LFN_offset_reserved2 + 2 <= UnitOffset(j)
  {
  }

  /** The parts of a name as addEntry writes them, the last part first. */
  ghost predicate NameParts(lfns: seq<Slot>, name: Text, chkSum: nat) {
    && |name| <= 247 && |lfns| == Parts(|name|)
    && forall j :: 0 <= j < |lfns| ==>
         Holds(lfns[j], |lfns| - j + (if j == 0 then LFN_END else 0), PartUnits(Buffer(name), |lfns| - j), chkSum)
  }

  /** Names that can be stored without overrunning the buffer, in nonzero 16-bit units. */
  predicate Storable(name: Text) {
    1 <= |name| <= 247 && forall i :: 0 <= i < |name| ==> 0 < name[i] < 0x1_0000
  }

  lemma PartsAreSlots(lfns: seq<Slot>, name: Text, chkSum: nat)
    requires NameParts(lfns, name, chkSum)
    ensures AllSlots(lfns)
  {
    forall j | 0 <= j < |lfns| ensures |lfns[j]| == SLOT_SIZE {
      assert Holds(lfns[j], |lfns| - j + (if j == 0 then LFN_END else 0), PartUnits(Buffer(name), |lfns| - j), chkSum);
    }
  }

  /** Unit p of the stored parts, taken together. */
  lemma StoredUnit(lfns: seq<Slot>, name: Text, chkSum: nat, p: nat)
    requires NameParts(lfns, name, chkSum) && p < 13 * |lfns| && AllSlots(lfns)
    ensures p < |name| && name[p] != 0 ==> AllUnits(lfns)[p] == name[p]
    ensures p == |name| && |name| > 0 && name[p - 1] != 0 ==> AllUnits(lfns)[p] == 0
  {
    hide AllUnits, Units;
    var k, q := p / 13, p % 13;
    var j := |lfns| - 1 - k;
    UnitsOfPart(lfns, j, q);
    assert Holds(lfns[j], |lfns| - j + (if j == 0 then LFN_END else 0), PartUnits(Buffer(name), |lfns| - j), chkSum);
    assert Units(lfns[j])[q] == PartUnit(Buffer(name), k + 1, q);
    assert p == 13 * k + q;
    if 0 < p == |name| { assert Buffer(name)[p - 1] == Buffer(name)[..|name|][p - 1]; }
    if p < |name| { assert Buffer(name)[p] == Buffer(name)[..|name|][p]; }
  }

  /** A long name survives being written to slots and read back by the enumerator, whatever its
      length up to 247, multiples of 13 included, and its checksum matches. */
  lemma LongNameRoundTrip(lfns: seq<Slot>, alias: Slot, name: Text)
    requires && Storable(name)
             && |alias| == SLOT_SIZE
             && KindOf(alias) == Entry
             && NameParts(lfns, name, Checksum(alias[..11]))
    ensures GroupOk(lfns, alias) && lfns != [] && GroupName(lfns, alias) == name
  {
    hide AllUnits, Units, PartUnits, Checksum, Buffer;
    var chk := Checksum(alias[..11]);
    PartsAreSlots(lfns, name, chk);
    PartsInBuffer(|name|);
    forall j | 0 <= j < |lfns| ensures PartOk(lfns[j], |lfns| - j, j == 0, chk) {
      assert Holds(lfns[j], |lfns| - j + (if j == 0 then LFN_END else 0), PartUnits(Buffer(name), |lfns| - j), chk);
    }
    var m := Least(13 * |lfns|, MAX_LFN_LENGTH - 1);
    assert |name| <= m;
    var u := AllUnits(lfns)[..m];
    forall p | 0 <= p < |name| ensures u[p] == name[p] { StoredUnit(lfns, name, chk, p); }
    if |name| < m { StoredUnit(lfns, name, chk, |name|); }
    assert u[..|name|] == name;
    UntilZeroIs(u, name);
  }
}
