/** Directory slots: what one slot is, how the slots of a long name hold it, and how the enumerator
    walks over slots (source/directory.c).  A slot is 32 bytes. */
module Slots {
  import opened Bytes
  import opened Names

  type Slot = seq<byte>

  const SLOT_SIZE: nat := 0x20
  const DIR_ENTRY_LAST: nat := 0x00
  const DIR_ENTRY_FREE: nat := 0xE5
  const DIR_ENTRY_attributes: nat := 0x0B
  const DIR_ENTRY_caseInfo: nat := 0x0C
  const LFN_offset_checkSum: nat := 0x0D
  const LFN_offset_reserved2: nat := 0x1A
  const LFN_END: nat := 0x40
  const LFN_DEL: nat := 0x80
  const ATTRIB_LFN: nat := 0x0F
  const ATTRIB_VOL: nat := 0x08
  const CASE_LOWER_BASE: nat := 0x08
  const CASE_LOWER_EXT: nat := 0x10

  /** Where the k-th of the thirteen units of a long-name slot is. */
  function UnitOffset(k: nat): nat {
    if k < 5 then 0x01 + 2 * k else if k < 11 then 0x0E + 2 * (k - 5) else 0x1C + 2 * (k - 11)
  }

  function Units(slot: Slot): (u: Text)
    requires |slot| == SLOT_SIZE
    ensures |u| == LFN_ENTRY_LENGTH
  {
    seq(LFN_ENTRY_LENGTH, k requires 0 <= k < LFN_ENTRY_LENGTH => ToU16(slot, UnitOffset(k)))
  }

  /** Where the units are, byte by byte, the lower byte of each first. */
  lemma UnitBytes(slot: Slot, k: nat)
    requires |slot| == 32 && k < 13
    ensures var a := [1, 3, 5, 7, 9, 14, 16, 18, 20, 22, 24, 28, 30][k];
            Units(slot)[k] == slot[a] as int + 0x100 * slot[a + 1] as int
  {
  }

  predicate IsLfn(slot: Slot)
    requires |slot| == SLOT_SIZE
  {
    slot[DIR_ENTRY_attributes] as nat == ATTRIB_LFN
  }

  predicate IsVolume(slot: Slot)
    requires |slot| == SLOT_SIZE
  {
    slot[DIR_ENTRY_attributes] as nat / ATTRIB_VOL % 2 == 1
  }

  /** How the enumerator takes a slot. */
  datatype Kind = LongName | Ignored | Last | Entry

  function KindOf(slot: Slot): Kind
    requires |slot| == SLOT_SIZE
  {
    if IsLfn(slot) then LongName
    else if IsVolume(slot) then Ignored
    else if slot[0] as nat == DIR_ENTRY_LAST then Last
    else if slot[0] as nat != DIR_ENTRY_FREE && slot[0] > 0x20 then Entry
    else Ignored
  }

  /** The name in the eleven characters of a slot. */
  function SlotAlias(slot: Slot): Text
    requires |slot| == SLOT_SIZE
  {
    AliasText(slot[..11], HasFlag(slot, CASE_LOWER_BASE), HasFlag(slot, CASE_LOWER_EXT))
  }

  /** The case byte has this flag. */
  predicate HasFlag(slot: Slot, flag: nat)
    requires |slot| == SLOT_SIZE && 0 < flag
  {
    slot[DIR_ENTRY_caseInfo] as nat / flag % 2 == 1
  }

  lemma UntilSpaceIs(s: Text, n: nat)
    requires n <= |s| && (n < |s| ==> s[n] == SPACE) && forall i :: 0 <= i < n ==> s[i] != SPACE
    ensures UntilSpace(s) == s[..n]
  {
    if n > 0 {
      UntilSpaceIs(s[1..], n - 1);
      assert s[..n] == [s[0]] + s[1..][..n - 1];
    }
  }

  /** _FAT_directory_entryGetAlias: the name of an entry from the eleven characters of its slot. */
  method EntryGetAlias(entryData: Slot) returns (destName: Text)
    requires |entryData| == SLOT_SIZE
    ensures destName == if entryData[0] as nat == DIR_ENTRY_FREE then [] else SlotAlias(entryData)
  {
    hide UntilSpace, Cased, HasFlag;
    destName := [];
    if entryData[0] as nat == DIR_ENTRY_FREE { return; }
    if entryData[0] as nat == DOT {
      destName := if entryData[1] as nat == DOT then [DOT, DOT] else [DOT];
      return;
    }
    var caseInfo := HasFlag(entryData, CASE_LOWER_BASE);
    ghost var base: Text, ext: Text := entryData[..8], entryData[8..11];
    assert entryData[..11][..8] == base && entryData[..11][8..] == ext;
    destName := CopyCased(entryData, 0, 8, caseInfo);
    if entryData[8] as nat != SPACE {
      caseInfo := HasFlag(entryData, CASE_LOWER_EXT);
      var extension := CopyCased(entryData, 8, 11, caseInfo);
      destName := destName + [DOT] + extension;
    }
    EmptyUntil(ext);
    EmptyCased(ext, caseInfo);
  }

  lemma EmptyUntil(s: Text)
    requires s != []
    ensures UntilSpace(s) == [] <==> s[0] == SPACE
  {
  }

  lemma EmptyCased(s: Text, lower: bool)
    ensures |Cased(s, lower)| == |s|
  {
  }

  /** The characters from place `from` up to a space, in lower case if asked for. */
  method CopyCased(entryData: Slot, from: nat, to: nat, lower: bool) returns (t: Text)
    requires from <= to <= |entryData|
    ensures t == Cased(UntilSpace(entryData[from..to]), lower)
  {
    t := [];
    var i := from;
    ghost var part: Text := entryData[from..to];
    while i < to && entryData[i] as nat != SPACE
      invariant from <= i <= to && t == Cased(part[..i - from], lower)
      invariant forall k :: 0 <= k < i - from ==> part[k] != SPACE
    {
      var c: nat := entryData[i];
      assert part[i - from] == c;
      t := t + [if lower then Lower(c) else c];
      i := i + 1;
    }
    UntilSpaceIs(part, i - from);
  }

  // ---- the enumerator ----

  /** What the enumerator remembers of a long name. */
  datatype Lfn = Lfn(found: bool, chkSum: nat, start: nat, buf: Text)

  /** The text in the buffer goes up to the first zero. */
  function UntilZero(s: Text): (r: Text)
    ensures r <= s && (|r| < |s| ==> s[|r|] == 0) && forall i :: 0 <= i < |r| ==> r[i] != 0
  {
    if s == [] || s[0] == 0 then [] else [s[0]] + UntilZero(s[1..])
  }

  /** Thirteen units at place pos, the last place of the buffer left alone. */
  function PutUnits(buf: Text, pos: nat, units: Text): (r: Text)
    requires |buf| == MAX_LFN_LENGTH && |units| == LFN_ENTRY_LENGTH
    ensures |r| == |buf|
  {
    seq(|buf|,
        p requires 0 <= p < |buf| =>
          if pos <= p < pos + LFN_ENTRY_LENGTH && p < MAX_LFN_LENGTH - 1 then units[p - pos] else buf[p])
  }

  function Least(a: nat, b: nat): nat {
    if a < b then a else b
  }

  /** A long-name slot at place i. */
  function StepLfn(st: Lfn, slot: Slot, i: nat): Lfn
    requires |slot| == SLOT_SIZE && |st.buf| == MAX_LFN_LENGTH
    requires LfnDefined(st, slot)
  {
    var st1 := Opened(st, slot, i);
    if !st1.found then st1
    else st1.(buf := PutUnits(st1.buf, (slot[0] as nat % LFN_END - 1) * 13, Units(slot)))
  }

  /** The first half of the step: does the slot start, continue or break a long name? */
  function Opened(st: Lfn, slot: Slot, i: nat): (r: Lfn)
    requires |slot| == SLOT_SIZE && |st.buf| == MAX_LFN_LENGTH
    ensures |r.buf| == MAX_LFN_LENGTH
  {
    var ord, chk := slot[0] as nat, slot[LFN_offset_checkSum] as nat;
    if ord >= LFN_DEL then st.(found := false)
    else if ord >= LFN_END then Lfn(true, chk, i, st.buf[Least(ord % LFN_END * 13, MAX_LFN_LENGTH - 1) := 0])
    else if st.chkSum != chk then st.(found := false)
    else st
  }

  /** A part with number 0 would go before the buffer: C does not say what happens then. */
  predicate LfnDefined(st: Lfn, slot: Slot)
    requires |slot| == SLOT_SIZE && |st.buf| == MAX_LFN_LENGTH
  {
    Opened(st, slot, 0).found ==> slot[0] as nat % LFN_END != 0
  }

  datatype Outcome = Undefined | NotFound | Found(start: nat, end: nat, name: Text)

  ghost predicate AllSlots(d: seq<Slot>) {
    forall i :: 0 <= i < |d| ==> |d[i]| == SLOT_SIZE
  }

  /** The next entry from slot i on. */
  function Scan(d: seq<Slot>, i: nat, st: Lfn): Outcome
    requires |st.buf| == MAX_LFN_LENGTH && AllSlots(d)
    decreases |d| - i
  {
    if i >= |d| then NotFound
    else
      match KindOf(d[i])
      case Ignored => Scan(d, i + 1, st)
      case Last => NotFound
      case LongName => if LfnDefined(st, d[i]) then Scan(d, i + 1, StepLfn(st, d[i], i)) else Undefined
      case Entry => TakeEntry(d[i], i, st)
  }

  function TakeEntry(slot: Slot, i: nat, st: Lfn): Outcome
    requires |slot| == SLOT_SIZE && |st.buf| == MAX_LFN_LENGTH
  {
    if st.found && Checksum(slot[..11]) == st.chkSum then
      (if |UntilZero(st.buf)| < MAX_LFN_LENGTH then Found(st.start, i, UntilZero(st.buf)) else Undefined)
    else Found(i, i, SlotAlias(slot))
  }

  /** What the search makes of a slot, from its first byte and its attribute byte alone.  0x0F is a part
      of a long name; any other slot with bit 3 set is passed over.  Of the rest a first byte of 0 ends
      the directory, 0xE5 and everything up to a space is passed over, and anything else, a
      subdirectory among them, is the entry the search reports. */
  lemma SearchAtSlot(d: seq<Slot>, i: nat, st: Lfn)
    requires |st.buf| == 256 && AllSlots(d) && i < |d| && |d[i]| == 32
    ensures var first, attributes := d[i][0] as nat, d[i][11] as nat;
            if attributes == 0x0F then
              Scan(d, i, st) == if LfnDefined(st, d[i]) then Scan(d, i + 1, StepLfn(st, d[i], i)) else Undefined
            else if attributes % 16 >= 8 then Scan(d, i, st) == Scan(d, i + 1, st)
            else if first == 0 then Scan(d, i, st) == NotFound
            else if first == 0xE5 || first <= 0x20 then Scan(d, i, st) == Scan(d, i + 1, st)
            else Scan(d, i, st) == Undefined || (Scan(d, i, st).Found? && Scan(d, i, st).end == i)
  {
    hide StepLfn, LfnDefined, UntilZero, Checksum, SlotAlias;
    ThirdBit(d[i][11]);
  }

  /** A number from 0x80 on breaks a name off, one from 0x40 on starts a name there; a smaller one goes
      on with the name whose checksum it has. */
  lemma NumbersOfNames(st: Lfn, slot: Slot, i: nat)
    requires |slot| == 32 && |st.buf| == 256 && LfnDefined(st, slot)
    ensures var number, sum, st' := slot[0] as nat, slot[13] as nat, StepLfn(st, slot, i);
            && (number >= 0x80 ==> !st'.found)
            && (0x40 <= number < 0x80 ==> st'.found && st'.start == i && st'.chkSum == sum)
            && (number < 0x40 ==>
                  (st'.found <==> st.found && st.chkSum == sum) && st'.start == st.start && st'.chkSum == st.chkSum)
  {
  }

  lemma ThirdBit(attributes: nat)
    ensures attributes / 8 % 2 == 1 <==> attributes % 16 >= 8
  {
  }

  /** Without a long name before it, an entry is reported under the name in its slot, where bit 3 of
      byte 12 asks for a lower-case base and bit 4 for a lower-case extension. */
  lemma NamesByFlags(slot: Slot)
    requires |slot| == 32 && slot[..11] == Codes("README  TXT")
    ensures SlotAlias(slot) == match slot[12] as nat / 8 % 4
                               case 0 => Codes("README.TXT")
                               case 1 => Codes("readme.TXT")
                               case 2 => Codes("README.txt")
                               case _ => Codes("readme.txt")
  {
    hide UntilSpace, Cased;
    var t := Codes("README  TXT");
    ReadmeParts(t);
    ReadmeCased();
    FlagBits(slot[12] as nat);
    assert t[0] == 0x52;
  }

  lemma FlagBits(b: nat)
    ensures b / 8 % 2 == b / 8 % 4 % 2 && b / 16 % 2 == b / 8 % 4 / 2
  {
    EighthBits(b / 8 / 4, b / 8 % 4, b % 8);
  }

  lemma EighthBits(x: nat, y: nat, z: nat)
    requires y < 4 && z < 8
    ensures (4 * x + y) % 2 == y % 2 && (8 * (4 * x + y) + z) / 16 % 2 == y / 2
  {
    assert (8 * (4 * x + y) + z) / 16 == 2 * x + y / 2;
  }

  lemma ReadmeParts(t: Text)
    requires t == Codes("README  TXT")
    ensures UntilSpace(t[..8]) == Codes("README") && UntilSpace(t[8..]) == Codes("TXT")
  {
    hide UntilSpace;
    UntilSpaceIs(t[..8], 6);
    UntilSpaceIs(t[8..], 3);
    assert t[..8][..6] == Codes("README") && t[8..][..3] == Codes("TXT");
  }

  lemma ReadmeCased()
    ensures Cased(Codes("README"), true) == Codes("readme") && Cased(Codes("README"), false) == Codes("README")
    ensures Cased(Codes("TXT"), true) == Codes("txt") && Cased(Codes("TXT"), false) == Codes("TXT")
    ensures Codes("README") + ([DOT] + Codes("TXT")) == Codes("README.TXT")
    ensures Codes("readme") + ([DOT] + Codes("TXT")) == Codes("readme.TXT")
    ensures Codes("README") + ([DOT] + Codes("txt")) == Codes("README.txt")
    ensures Codes("readme") + ([DOT] + Codes("txt")) == Codes("readme.txt")
  {
  }

  /** The state at the start of a search, with whatever the buffer holds. */
  function Fresh(buf: Text): Lfn {
    Lfn(false, 0, 0, buf)
  }

  // ---- long-name groups ----

  /** The parts of a name in order: the last slot holds the first part. */
  function AllUnits(lfns: seq<Slot>): (u: Text)
    requires AllSlots(lfns)
    ensures |u| == 13 * |lfns|
  {
    if lfns == [] then [] else AllUnits(lfns[1..]) + Units(lfns[0])
  }

  /** The slots of one entry: the parts of its long name, numbered down to 1, the first one marked as
      the end of the name, all with the checksum of the alias; then the alias. */
  ghost predicate GroupOk(lfns: seq<Slot>, alias: Slot) {
    && AllSlots(lfns) && |alias| == SLOT_SIZE && KindOf(alias) == Entry && |lfns| < LFN_END
    && forall j :: 0 <= j < |lfns| ==> PartOk(lfns[j], |lfns| - j, j == 0, Checksum(alias[..11]))
  }

  predicate PartOk(slot: Slot, ordinal: nat, last: bool, chkSum: nat)
    requires |slot| == SLOT_SIZE
  {
    && IsLfn(slot)
    && slot[0] as nat == ordinal + (if last then LFN_END else 0)
    && slot[LFN_offset_checkSum] as nat == chkSum
  }

  function GroupName(lfns: seq<Slot>, alias: Slot): Text
    requires AllSlots(lfns) && |alias| == SLOT_SIZE
  {
    if lfns == [] then SlotAlias(alias)
    else UntilZero(AllUnits(lfns)[..Least(13 * |lfns|, MAX_LFN_LENGTH - 1)])
  }

  /** After the first j parts: they are in the buffer, and the name will end. */
  ghost predicate Collected(st: Lfn, lfns: seq<Slot>, j: nat, start: nat, chkSum: nat) {
    var n := |lfns|;
    var m := Least(13 * n, MAX_LFN_LENGTH - 1);
    && AllSlots(lfns) && j <= n && |st.buf| == MAX_LFN_LENGTH && st.found && st.start == start && st.chkSum == chkSum
    && st.buf[m] == 0
    && forall p :: 13 * (n - j) <= p < m ==> st.buf[p] == AllUnits(lfns)[p]
  }

  lemma SplitUnits(lfns: seq<Slot>)
    requires AllSlots(lfns) && lfns != []
    ensures AllSlots(lfns[1..]) && |lfns[0]| == SLOT_SIZE && AllUnits(lfns) == AllUnits(lfns[1..]) + Units(lfns[0])
    ensures forall j :: 0 <= j < |lfns| ==> |lfns[j]| == SLOT_SIZE
  {
  }

  lemma {:induction false} UnitsOfPart(lfns: seq<Slot>, j: nat, q: nat)
    requires AllSlots(lfns) && j < |lfns| && q < LFN_ENTRY_LENGTH
    ensures AllUnits(lfns)[13 * (|lfns| - 1 - j) + q] == Units(lfns[j])[q]
  {
    hide Units, AllUnits, AllSlots;
    SplitUnits(lfns);
    var front, back := AllUnits(lfns[1..]), Units(lfns[0]);
    var at := 13 * (|lfns| - 1 - j) + q;
    if j > 0 {
      assert lfns[1..][j - 1] == lfns[j];
      UnitsOfPart(lfns[1..], j - 1, q);
      assert at < |front|;
    } else {
      assert at == |front| + q;
    }
  }

  lemma CollectFirst(st: Lfn, lfns: seq<Slot>, start: nat, chkSum: nat)
    requires && |st.buf| == MAX_LFN_LENGTH
             && AllSlots(lfns)
             && 0 < |lfns| < LFN_END
             && PartOk(lfns[0], |lfns|, true, chkSum)
    ensures LfnDefined(st, lfns[0]) && Collected(StepLfn(st, lfns[0], start), lfns, 1, start, chkSum)
  {
    hide AllUnits, Units;
    var n := |lfns|;
    assert lfns[0][0] as nat % LFN_END == n;
    var st' := StepLfn(st, lfns[0], start);
    var m := Least(13 * n, MAX_LFN_LENGTH - 1);
    forall p | 13 * (n - 1) <= p < m ensures st'.buf[p] == AllUnits(lfns)[p] {
      UnitsOfPart(lfns, 0, p - 13 * (n - 1));
    }
  }

  lemma CollectNext(st: Lfn, lfns: seq<Slot>, j: nat, start: nat, chkSum: nat, i: nat)
    requires && Collected(st, lfns, j, start, chkSum)
             && 0 < j < |lfns| < LFN_END
             && PartOk(lfns[j], |lfns| - j, false, chkSum)
    ensures LfnDefined(st, lfns[j]) && Collected(StepLfn(st, lfns[j], i), lfns, j + 1, start, chkSum)
  {
    hide AllUnits, Units;
    var n := |lfns|;
    assert lfns[j][0] as nat % LFN_END == n - j;
    var st' := StepLfn(st, lfns[j], i);
    var m := Least(13 * n, MAX_LFN_LENGTH - 1);
    forall p | 13 * (n - j - 1) <= p < m ensures st'.buf[p] == AllUnits(lfns)[p] {
      if p < 13 * (n - j) {
        UnitsOfPart(lfns, j, p - 13 * (n - j - 1));
      }
    }
  }

  lemma UntilZeroIs(s: Text, r: Text)
    requires r <= s && (|r| < |s| ==> s[|r|] == 0) && forall i :: 0 <= i < |r| ==> r[i] != 0
    ensures UntilZero(s) == r
  {
    if r != [] { UntilZeroIs(s[1..], r[1..]); }
  }

  lemma CollectedName(st: Lfn, lfns: seq<Slot>, alias: Slot, start: nat, i: nat)
    requires GroupOk(lfns, alias) && lfns != [] && Collected(st, lfns, |lfns|, start, Checksum(alias[..11]))
    ensures TakeEntry(alias, i, st) == Found(start, i, GroupName(lfns, alias))
  {
    hide AllUnits, Units, Checksum;
    var m := Least(13 * |lfns|, MAX_LFN_LENGTH - 1);
    assert st.buf[..m] == AllUnits(lfns)[..m];
    var r := UntilZero(st.buf[..m]);
    assert |r| < m ==> st.buf[|r|] == 0;
    UntilZeroIs(st.buf, r);
  }

  /** The enumerator takes a group whole, whatever its buffer held before. */
  lemma ScanGroup(d: seq<Slot>, i: nat, lfns: seq<Slot>, alias: Slot, buf: Text)
    requires AllSlots(d) && GroupOk(lfns, alias) && |buf| == MAX_LFN_LENGTH
    requires i + |lfns| < |d| && d[i..i + |lfns| + 1] == lfns + [alias]
    ensures Scan(d, i, Fresh(buf)) == Found(i, i + |lfns|, GroupName(lfns, alias))
  {
    hide StepLfn, LfnDefined, GroupName, TakeEntry;
    InGroup(d, i, lfns, alias);
    if lfns != [] {
      CollectFirst(Fresh(buf), lfns, i, Checksum(alias[..11]));
      ScanParts(d, i, lfns, alias, 1, StepLfn(Fresh(buf), lfns[0], i));
    } else {
      ShortEntry(alias, i, buf);
    }
  }

  lemma ShortEntry(alias: Slot, i: nat, buf: Text)
    requires |alias| == SLOT_SIZE && |buf| == MAX_LFN_LENGTH
    ensures TakeEntry(alias, i, Fresh(buf)) == Found(i, i, GroupName([], alias))
  {
  }

  lemma InGroup(d: seq<Slot>, i: nat, lfns: seq<Slot>, alias: Slot)
    requires i + |lfns| < |d| && d[i..i + |lfns| + 1] == lfns + [alias]
    ensures d[i + |lfns|] == alias && forall j :: 0 <= j < |lfns| ==> d[i + j] == lfns[j]
  {
    var g := d[i..i + |lfns| + 1];
    assert g[|lfns|] == alias;
    forall j | 0 <= j < |lfns| ensures d[i + j] == lfns[j] { assert g[j] == lfns[j]; }
  }

  lemma {:induction false} ScanParts(d: seq<Slot>, i: nat, lfns: seq<Slot>, alias: Slot, j: nat, st: Lfn)
    requires AllSlots(d) && GroupOk(lfns, alias) && i + |lfns| < |d| && d[i..i + |lfns| + 1] == lfns + [alias]
    requires 0 < j <= |lfns| && Collected(st, lfns, j, i, Checksum(alias[..11]))
    ensures Scan(d, i + j, st) == Found(i, i + |lfns|, GroupName(lfns, alias))
    decreases |lfns| - j
  {
    hide StepLfn, LfnDefined, GroupName, TakeEntry, Collected, Checksum;
    InGroup(d, i, lfns, alias);
    CollectedSize(st, lfns, j, i, Checksum(alias[..11]));
    if j < |lfns| {
      CollectNext(st, lfns, j, i, Checksum(alias[..11]), i + j);
      ScanParts(d, i, lfns, alias, j + 1, StepLfn(st, lfns[j], i + j));
    } else {
      CollectedName(st, lfns, alias, i, i + j);
    }
  }

  lemma CollectedSize(st: Lfn, lfns: seq<Slot>, j: nat, start: nat, chkSum: nat)
    requires Collected(st, lfns, j, start, chkSum)
    ensures |st.buf| == MAX_LFN_LENGTH
  {
  }
}
