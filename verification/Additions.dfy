/** Adding an entry to a directory (source/directory.c, _FAT_directory_addEntry). */
module Additions {
  import opened Bytes
  import opened Pages
  import opened Layout
  import opened FatEntries
  import opened Chains
  import opened SectorCache
  import opened Fat
  import opened FileBytes
  import opened FileSpec
  import opened Names
  import opened Slots
  import opened LongNames
  import opened NumericTails
  import opened Listings
  import opened DirBytes
  import opened Gaps
  import opened NewEntries
  import opened Directories

  // ---- the alias ----

  /** The first numbered variant of the alias that no entry has. */
  method GenerateTail(partition: Partition, alias: Text, dirCluster: nat, ghost dir: nat, ghost items: seq<Item>,
                      ghost rest: seq<Slot>)
    returns (ok: bool, numbered: Text)
    requires && partition.Valid()
             && Contains(partition.g, partition.Now(), dir, items, rest)
             && Means(partition.g, dirCluster, dir)
    requires AliasShape(alias)
    modifies partition.Repr()
    ensures partition.Valid() && partition.Now() == old(partition.Now())
    ensures ok ==> FirstUntaken(Listing(items), Expanded(alias), numbered)
    ensures !ok ==> AllVariantsTaken(Listing(items), Expanded(alias))
  {
    hide ByteOffset, Geometry.Valid, Cache.Valid, Cache.Touched, FatEntries.Links, Chains.WellFormed, Listing, Taken,
         Contains, AliasShape, Candidate, FirstDot, Expanded;
    ghost var s := partition.Now();
    var full := Expanded(alias);
    var chars := new nat[|full|](i requires 0 <= i < |full| => full[i]);
    assert chars[..] == full;
    var i := 1;
    while i <= MAX_NUMERIC_TAIL
      invariant 1 <= i <= MAX_NUMERIC_TAIL + 1 && partition.Valid() && partition.Now() == s && chars.Length == |full|
      invariant chars[..] == if i == 1 then full else Candidate(full, i - 1)
      invariant forall k: nat :: 1 <= k < i ==> Taken(Listing(items), Candidate(full, k))
    {
      if i > 1 { CandidateAgain(full, i - 1); }
      WriteTail(chars, i);
      var exists_ := EntryExists(partition, chars[..], dirCluster, dir, items, rest);
      if !exists_ {
        assert VariantIs(Listing(items), full, i, chars[..]);
        return true, chars[..];
      }
      i := i + 1;
    }
    ok, numbered := false, [];
  }

  /** The outcome of choosing an alias for a name that is not just periods. */
  ghost predicate AliasChosen(before: seq<Listed>, name: Text, ok: bool, entrySize: nat, alias: Text)
    requires Ascii(name)
  {
    && entrySize == EntrySize(name)
    && if ShortForm(name) then ok && alias == WithoutFinalDot(name)
       else if LeavesNothing(name) then ok && alias == []
       else if ok then IsAliasOf(before, name, alias)
       else NoAliasLeft(before, name)
  }

  method ChooseAlias(partition: Partition, name: Text, dirCluster: nat, ghost dir: nat, ghost items: seq<Item>,
                     ghost rest: seq<Slot>)
    returns (ok: bool, entrySize: nat, alias: Text)
    requires && partition.Valid()
             && Contains(partition.g, partition.Now(), dir, items, rest)
             && Means(partition.g, dirCluster, dir)
    requires Ascii(name) && name != [] && !IsDots(name)
    modifies partition.Repr()
    ensures partition.Valid() && partition.Now() == old(partition.Now())
    ensures AliasChosen(Listing(items), name, ok, entrySize, alias)
  {
    hide ByteOffset, Geometry.Valid, Cache.Valid, Cache.Touched, FatEntries.Links, Chains.WellFormed, Listing, Taken,
         Contains, AliasShape, FirstDot, BlankExtension, ShortForm, LeavesNothing, SameName, WithoutFinalDot, AliasOf;
    AliasFacts(name);
    var aliasLen;
    aliasLen, alias := CreateAlias(name);
    if aliasLen == 0 {
      ok, entrySize := true, 1;
    } else {
      entrySize := (|name| + LFN_ENTRY_LENGTH - 1) / LFN_ENTRY_LENGTH + 1;
      assert entrySize == Parts(|name|) + 1;
      ok := true;
      var taken := true;
      if SameName(alias, name) {
        taken := EntryExists(partition, alias, dirCluster, dir, items, rest);
      }
      if taken {
        ok, alias := GenerateTail(partition, alias, dirCluster, dir, items, rest);
      }
    }
  }

  lemma ChosenShape(before: seq<Listed>, name: Text, entrySize: nat, alias: Text)
    requires Ascii(name) && name != [] && !IsDots(name) && AliasChosen(before, name, true, entrySize, alias)
    ensures AliasShape(alias)
  {
    hide AliasShape, IsAliasOf, LeavesNothing;
    if ShortForm(name) {
      ShortNameIsShown(name);
    } else if LeavesNothing(name) {
      Dotless([]);
    } else {
      AliasIsGood(before, name, alias);
    }
  }

  // ---- writing the slots ----

  /** The slots of the entry, over those from s on. */
  ghost predicate Written(d: seq<Slot>, d': seq<Slot>, s: nat, slots: seq<Slot>) {
    s + |slots| <= |d| && d' == d[..s] + slots + d[s + |slots|..]
  }

  /** The first so many parts of a name of size - 1 parts. */
  ghost predicate FirstParts(done: seq<Slot>, name: Text, chkSum: nat, size: nat) {
    && |name| <= 247 && size == LongNames.Parts(|name|) + 1 && |done| < size
    && forall j :: 0 <= j < |done| ==>
         Holds(done[j], size - 1 - j + (if j == 0 then LFN_END else 0), PartUnits(Buffer(name), size - 1 - j), chkSum)
  }

  /** Writes the parts of the long name, if there is one, and the alias, slot after slot. */
  method WriteEntry(partition: Partition, dataStart: DirPos, name: Text, entryData: Slot, entrySize: nat,
                    aliasCheckSum: byte, ghost dir: nat, ghost s: nat)
    returns (ghost lfns: seq<Slot>)
    requires && partition.Valid()
             && DirOk(partition.g, partition.Now(), dir)
             && SlotAt(partition.g, partition.Now(), dir, s, dataStart)
    requires && |entryData| == SLOT_SIZE
             && |name| < MAX_LFN_LENGTH
             && Ascii(name)
             && s + entrySize <= |DirSlots(partition.g, partition.Now(), dir)|
    requires entrySize == 1 || (entrySize == LongNames.Parts(|name|) + 1 && 0 < |name| <= 247)
    modifies partition.Repr()
    ensures && partition.Valid()
            && partition.Fs() == old(partition.Fs())
            && DirKept(partition.g, old(partition.Now()), partition.Now(), dir)
    ensures DirOk(partition.g, partition.Now(), dir) && |lfns| == entrySize - 1
    ensures Written(DirSlots(partition.g, old(partition.Now()), dir), DirSlots(partition.g, partition.Now(), dir), s,
                    lfns + [entryData])
    ensures entrySize > 1 ==> NameParts(lfns, name, aliasCheckSum)
  {
    hide ByteOffset, Geometry.Valid, Cache.Valid, Cache.Touched, FatEntries.Links, Chains.WellFormed, Raw, DirSlots,
         SlotAt, SnapOk, DirKept, PartUnits, Buffer, LongNames.Holds, FirstParts, NameParts, Written;
    if entrySize > 1 { NoParts(name, aliasCheckSum, entrySize); }
    var lfn := new nat[MAX_LFN_LENGTH](i => 0);
    CopyName(lfn, name);
    var lfnEntry := new byte[SLOT_SIZE];
    lfns := WriteSlots(partition, dataStart, lfn, lfnEntry, name, entryData, entrySize, aliasCheckSum, dir, s);
    if entrySize > 1 { AllParts(lfns, name, aliasCheckSum, entrySize); }
  }

  method WriteSlots(partition: Partition, dataStart: DirPos, lfn: array<nat>, lfnEntry: array<byte>,
                    name: Text, entryData: Slot, entrySize: nat, aliasCheckSum: byte,
                    ghost dir: nat, ghost s: nat)
    returns (ghost lfns: seq<Slot>)
    requires && partition.Valid()
             && DirOk(partition.g, partition.Now(), dir)
             && SlotAt(partition.g, partition.Now(), dir, s, dataStart)
    requires && |entryData| == SLOT_SIZE
             && |name| < MAX_LFN_LENGTH
             && Ascii(name)
             && 0 < entrySize
             && s + entrySize <= |DirSlots(partition.g, partition.Now(), dir)|
    requires entrySize > 1 ==> FirstParts([], name, aliasCheckSum, entrySize)
    requires lfn.Length == MAX_LFN_LENGTH && lfn[..] == Buffer(name) && lfnEntry.Length == SLOT_SIZE
    modifies partition.Repr(), lfnEntry
    ensures && partition.Valid()
            && partition.Fs() == old(partition.Fs())
            && DirKept(partition.g, old(partition.Now()), partition.Now(), dir)
    ensures DirOk(partition.g, partition.Now(), dir) && |lfns| == entrySize - 1
    ensures Written(DirSlots(partition.g, old(partition.Now()), dir), DirSlots(partition.g, partition.Now(), dir), s,
                    lfns + [entryData])
    ensures entrySize > 1 ==> FirstParts(lfns, name, aliasCheckSum, entrySize)
  {
    hide ByteOffset, Geometry.Valid, Cache.Valid, Cache.Touched, FatEntries.Links, Chains.WellFormed, Raw, DirSlots,
         SlotAt, SnapOk, DirKept, DirOk, Buffer, FirstParts, Written;
    ghost var g, s0, d := partition.g, partition.Now(), DirSlots(partition.g, partition.Now(), dir);
    DirKeptRefl(g, s0, dir);
    WrittenNothing(d, s);
    var curEntryPos, entryStillValid, i := dataStart, true, entrySize;
    lfns := [];
    while entryStillValid && i > 0
      invariant 0 <= i <= entrySize && (entryStillValid || i == 0)
      invariant && partition.Valid()
                && partition.Fs() == s0.fs
                && DirKept(g, s0, partition.Now(), dir)
                && DirOk(g, partition.Now(), dir)
      invariant |lfns| == if i > 0 then entrySize - i else entrySize - 1
      invariant Written(d, DirSlots(g, partition.Now(), dir), s, if i > 0 then lfns else lfns + [entryData])
      invariant i > 0 ==> SlotAt(g, partition.Now(), dir, s + |lfns|, curEntryPos)
      invariant entrySize > 1 ==> FirstParts(lfns, name, aliasCheckSum, entrySize)
      invariant lfn[..] == Buffer(name)
      decreases i
    {
      var slot := entryData;
      ghost var done := lfns;
      if i > 1 {
        slot := MakePart(lfnEntry, lfn, name, entrySize, i, aliasCheckSum, lfns);
        lfns := lfns + [slot];
      }
      entryStillValid, curEntryPos := WriteAndStep(partition, curEntryPos, slot, dir, s, d, s0, done);
      i := i - 1;
    }
  }

  lemma NoParts(name: Text, chkSum: nat, size: nat)
    requires |name| <= 247 && size == LongNames.Parts(|name|) + 1
    ensures FirstParts([], name, chkSum, size)
  {
  }

  lemma AllParts(lfns: seq<Slot>, name: Text, chkSum: nat, size: nat)
    requires FirstParts(lfns, name, chkSum, size) && |lfns| == size - 1
    ensures NameParts(lfns, name, chkSum)
  {
    hide LongNames.Holds, PartUnits;
  }

  /** Part i - 1 of the name. */
  method MakePart(lfnEntry: array<byte>, lfn: array<nat>, name: Text, entrySize: nat, i: nat, aliasCheckSum: byte,
                  ghost lfns: seq<Slot>)
    returns (slot: Slot)
    requires && lfnEntry.Length == SLOT_SIZE
             && lfn.Length == MAX_LFN_LENGTH
             && |name| < MAX_LFN_LENGTH
             && Ascii(name)
             && lfn[..] == Buffer(name)
    requires FirstParts(lfns, name, aliasCheckSum, entrySize) && 2 <= i <= entrySize && |lfns| == entrySize - i
    modifies lfnEntry
    ensures |slot| == SLOT_SIZE && FirstParts(lfns + [slot], name, aliasCheckSum, entrySize)
  {
    hide PartUnits, Buffer, LongNames.Holds;
    PartsFit(|name|, i);
    BufferUnits(name);
    WritePart(lfnEntry, lfn, i, entrySize, aliasCheckSum);
    slot := lfnEntry[..];
    OnePart(slot, lfns, name, aliasCheckSum, entrySize, i);
  }

  /** Writes a slot behind those done and goes on to the next position. */
  method WriteAndStep(partition: Partition, pos: DirPos, slot: Slot, ghost dir: nat, ghost s: nat, ghost d: seq<Slot>,
                      ghost s0: Snap, ghost done: seq<Slot>)
    returns (valid: bool, next: DirPos)
    requires && partition.Valid()
             && DirOk(partition.g, partition.Now(), dir)
             && SlotAt(partition.g, partition.Now(), dir, s + |done|, pos)
             && |slot| == SLOT_SIZE
    requires && DirKept(partition.g, s0, partition.Now(), dir)
             && Written(d, DirSlots(partition.g, partition.Now(), dir), s, done)
    modifies partition.Repr()
    ensures && partition.Valid()
            && partition.Fs() == old(partition.Fs())
            && DirKept(partition.g, s0, partition.Now(), dir)
            && DirOk(partition.g, partition.Now(), dir)
    ensures Written(d, DirSlots(partition.g, partition.Now(), dir), s, done + [slot])
    ensures valid <==> s + |done| + 1 < |d|
    ensures valid ==> SlotAt(partition.g, partition.Now(), dir, s + |done| + 1, next)
  {
    hide ByteOffset, Geometry.Valid, Cache.Valid, Cache.Touched, FatEntries.Links, Chains.WellFormed, Raw, DirSlots,
         SlotAt, SnapOk, DirKept;
    ghost var g, t, p := partition.g, partition.Now(), s + |done|;
    WriteSlot(partition, pos, slot, dir, p);
    DirKeptTrans(g, s0, t, partition.Now(), dir);
    KeptOk(g, t, partition.Now(), dir);
    SlotsStay(g, t, partition.Now(), dir, p, pos);
    WrittenNext(d, DirSlots(g, t, dir), DirSlots(g, partition.Now(), dir), s, done, slot);
    valid, next := IncrementDirEntryPosition(partition, pos, false, dir, p);
  }

  lemma BufferUnits(name: Text)
    requires Ascii(name) && |name| < MAX_LFN_LENGTH
    ensures forall k :: 0 <= k < MAX_LFN_LENGTH ==> Buffer(name)[k] < 0x1_0000
  {
  }

  lemma PartsFit(n: nat, i: nat)
    requires n <= 247 && 2 <= i <= LongNames.Parts(n) + 1
    ensures 13 * (i - 1) <= MAX_LFN_LENGTH
  {
  }

  lemma WrittenNothing(d: seq<Slot>, s: nat)
    requires s <= |d|
    ensures Written(d, d, s, [])
  {
  }

  lemma WrittenNext(d: seq<Slot>, t: seq<Slot>, t': seq<Slot>, s: nat, done: seq<Slot>, slot: Slot)
    requires Written(d, t, s, done) && s + |done| < |t| && t' == t[s + |done| := slot]
    ensures Written(d, t', s, done + [slot])
  {
  }

  lemma OnePart(slot: Slot, lfns: seq<Slot>, name: Text, chkSum: nat, size: nat, i: nat)
    requires && FirstParts(lfns, name, chkSum, size)
             && 2 <= i <= size
             && |lfns| == size - i
             && 13 * (i - 1) <= MAX_LFN_LENGTH
    requires Holds(slot, i - 1 + (if i == size then LFN_END else 0), PartUnits(Buffer(name), i - 1), chkSum)
    ensures FirstParts(lfns + [slot], name, chkSum, size)
  {
    hide LongNames.Holds, PartUnits;
    var more := lfns + [slot];
    forall j | 0 <= j < |more|
      ensures Holds(more[j], size - 1 - j + (if j == 0 then LFN_END else 0), PartUnits(Buffer(name), size - 1 - j),
                    chkSum)
    {
      if j < |lfns| { assert more[j] == lfns[j]; }
    }
  }

  // ---- the new item ----

  /** What an item adds to a listing when `name` with this data was added. */
  ghost predicate Adds(before: seq<Listed>, name: Text, data: seq<byte>, x: seq<Listed>) {
    if LeavesNothing(name) && !IsDots(name) then x == []
    else exists e :: x == [e] && AddedEntry(before, name, e) && e.data == data
  }

  /** For example: three periods are a good name, and adding them adds nothing that shows. */
  lemma ThreePeriods(before: seq<Listed>, data: seq<byte>, x: seq<Listed>)
    ensures var name := [DOT, DOT, DOT];
            ValidLfn(name) && Trimmed(name) == name && (Adds(before, name, data, x) <==> x == [])
  {
    LeadingIs([DOT, DOT, DOT], 3);
    assert LastDot([DOT, DOT, DOT]) == 2 by { LastDotIs([DOT, DOT, DOT], 2); }
  }

  lemma ShortNameIsShown(name: Text)
    requires ShortForm(name) && name != []
    ensures AliasShape(WithoutFinalDot(name)) && WithoutFinalDot(name) != [] && WithoutFinalDot(name)[0] != DOT
    ensures WithoutFinalDot(WithoutFinalDot(name)) == WithoutFinalDot(name)
  {
    var p := FirstDot(name);
    assert p > 0;
    forall i | p < i < |name| ensures name[i] != DOT { assert Clean(name[p + 1..][i - p - 1]); }
    if name[|name| - 1] == DOT {
      Dotless(name[..p]);
      CleanHasNoDot(name[..p]);
    }
  }

  /** The item for an entry that is no pair of periods. */
  lemma ItemFor(before: seq<Listed>, name: Text, entryData: Slot, entrySize: nat, alias: Text, lfns: seq<Slot>,
                slot: Slot)
    returns (it: Item)
    requires PlainData(entryData) && Ascii(name) && 0 < |name| <= 247 && !IsDots(name) && !Taken(before, name)
    requires AliasChosen(before, name, true, entrySize, alias) && AliasShape(alias) && |lfns| == entrySize - 1
    requires (forall i :: 0 <= i < 11 ==> ShortSlot(alias)[i] < 0x100) && slot == WithName(entryData, ShortSlot(alias))
    requires entrySize > 1 ==> NameParts(lfns, name, Checksum(slot[..11]))
    ensures ItemOk(it) && ItemSlots(it) == lfns + [slot] && Adds(before, name, entryData[11..], ShownItem(it))
  {
    hide AliasShape, ShortSlot, Taken, BlankExtension, SameName, SlotAlias, GroupName, NameParts, Checksum, IsAliasOf;
    if ShortForm(name) {
      ShortNameIsShown(name);
      AliasSlot(entryData, alias);
      it := Alone(slot);
      assert AddedEntry(before, name, ListedAs(SlotAlias(slot), slot));
      assert !LeavesNothing(name) by { SomethingLeft(name); }
    } else if LeavesNothing(name) {
      BlankSlot(entryData);
      it := Skip(slot);
    } else {
      AliasIsGood(before, name, alias);
      AliasSlot(entryData, alias);
      StorableName(name);
      LongNameRoundTrip(lfns, slot, name);
      it := Group(lfns, slot);
      ShownGroup(lfns, slot);
      assert AliasFor(before, name, ListedAs(name, slot), alias);
      assert AddedEntry(before, name, ListedAs(name, slot));
    }
  }

  lemma SomethingLeft(name: Text)
    requires ShortForm(name) && name != []
    ensures !LeavesNothing(name)
  {
    assert FirstDot(name) > 0 && LeadingDots(name) == 0 && name[0..] == name;
    assert Clean(name[..FirstDot(name)][0]);
  }

  lemma StorableName(name: Text)
    requires Ascii(name) && 0 < |name| <= 247
    ensures Storable(name)
  {
  }

  /** An entry without a long name. */
  lemma Alone(slot: Slot) returns (it: Item)
    requires |slot| == SLOT_SIZE && KindOf(slot) == Entry
    ensures it == Group([], slot) && ItemOk(it) && ItemSlots(it) == [] + [slot]
    ensures ShownItem(it) == [ListedAs(SlotAlias(slot), slot)]
  {
    it := Group([], slot);
    ShownGroup([], slot);
  }

  lemma DotsItem(before: seq<Listed>, name: Text, entryData: Slot, slot: Slot) returns (it: Item)
    requires PlainData(entryData) && IsDots(name) && !Taken(before, name)
    requires && |DotSlot(name)| == 11
             && (forall i :: 0 <= i < 11 ==> DotSlot(name)[i] < 0x100)
             && slot == WithName(entryData, DotSlot(name))
    ensures ItemOk(it) && ItemSlots(it) == [] + [slot] && Adds(before, name, entryData[11..], ShownItem(it))
  {
    DotsSlot(entryData, name);
    it := Alone(slot);
    assert AddedEntry(before, name, ListedAs(name, slot));
  }

  // ---- where it goes ----

  /** The end of a well-formed directory is behind its items. */
  lemma EndIs(d: seq<Slot>, items: seq<Item>, rest: seq<Slot>, e: nat)
    requires Listings.WellFormed(d, items, rest) && EndsAt(d, e)
    ensures e == |Flat(items)|
  {
    hide Flat;
    FlatSlots(items);
    var n := |Flat(items)|;
    if rest != [] { assert d[n] == rest[0]; }
    assert forall k :: 0 <= k < n ==> d[k] == Flat(items)[k];
  }

  lemma BeforeEnd(d: seq<Slot>, items: seq<Item>, rest: seq<Slot>, n: nat)
    requires Listings.WellFormed(d, items, rest) && AllSlots(d) && n <= |d| && forall k :: 0 <= k < n ==> !IsLast(d[k])
    ensures n <= |Flat(items)|
  {
    hide Flat;
    if rest != [] { assert d[|Flat(items)|] == rest[0]; }
  }

  /** A directory that only changed behind its end shows the same. */
  lemma SameItems(d: seq<Slot>, t: seq<Slot>, items: seq<Item>, rest: seq<Slot>)
    requires Listings.WellFormed(d, items, rest) && AllSlots(d) && SameUpTo(d, t, EndOf(d))
    ensures EndOf(d) <= |t| && Listings.WellFormed(t, items, t[EndOf(d)..])
  {
    hide Flat, SkipOk, GroupOk, EndOf;
    var e := EndOf(d);
    EndIs(d, items, rest, e);
    var rest' := t[e..];
    assert t == t[..e] + rest' && d[..e] == Flat(items);
    if rest' != [] {
      assert rest'[0] == t[e];
      if t[e] != Zeros(32) { assert d[e] == rest[0]; }
    }
  }

  /** The item in the room that was found. */
  lemma InTheRoom(d: seq<Slot>, t: seq<Slot>, d': seq<Slot>, items: seq<Item>, rest: seq<Slot>, s: nat, size: nat,
                  it: Item)
    returns (items': seq<Item>, rest': seq<Slot>)
    requires Listings.WellFormed(d, items, rest) && ItemOk(it) && |ItemSlots(it)| == size && AllSlots(d)
    requires RoomInside(d, t, s, size) || RoomAtEnd(d, t, s, size, EndOf(d))
    requires Written(t, d', s, ItemSlots(it))
    ensures Listings.WellFormed(d', items', rest') && InsertedAt(items, items', s, ShownItem(it))
  {
    hide Flat, SkipOk, GroupOk, ItemSlots, Listing, ShownItem, InsertedAt, EndOf;
    if RoomInside(d, t, s, size) {
      BeforeEnd(d, items, rest, s + size);
      items' := AddInGap(d, items, rest, s, it, d');
      rest' := rest;
    } else {
      var e := EndOf(d);
      EndIs(d, items, rest, e);
      rest' := t[s + size..];
      assert rest'[0] == Zeros(32);
      assert t[..s] == t[..e][..s] == d[..e][..s] == d[..s];
      forall k | 0 <= k < |rest'| ensures |rest'[k]| == SLOT_SIZE { assert rest'[k] == t[s + size + k]; }
      items' := AddAtEnd(d, items, rest, s, it, rest', d');
    }
  }

  // ---- the operation ----

  /** A valid name that nothing has yet, for which there is an alias and room. */
  ghost predicate Addable(before: seq<Listed>, name: Text, d: seq<Slot>, cap: nat)
    requires AllSlots(d)
  {
    && name != [] && ValidLfn(name) && !Taken(before, name)
    && Ascii(name) && !NoAliasLeft(before, name) && HasRoom(d, EntrySize(name), cap)
  }

  /** The new item went where the directory d has room, and shows the new entry. */
  ghost predicate AddedAt(d: seq<Slot>, items: seq<Item>, items': seq<Item>, name: Text, data: seq<byte>, s: nat,
                          x: seq<Listed>)
    requires AllSlots(d)
  {
    Adds(Listing(items), name, data, x) && GoesTo(d, EntrySize(name), s) && InsertedAt(items, items', s, x)
  }

  /** _FAT_directory_addEntry: succeeds exactly for an addable name.  The listing then gets the new
      entry at the first gap, or at the end, and is otherwise the same; else it stays the same. */
  method AddEntry(partition: Partition, filename: Text, entryData: Slot, dirCluster: nat, ghost dir: nat,
                  ghost items: seq<Item>, ghost rest: seq<Slot>)
    returns (ok: bool, ghost items': seq<Item>, ghost rest': seq<Slot>)
    requires && partition.Valid()
             && partition.HintOk()
             && Contains(partition.g, partition.Now(), dir, items, rest)
             && dirCluster == dir
    requires PlainData(entryData) && forall i :: 0 <= i < |filename| ==> filename[i] < 0x80
    requires |Trimmed(filename)| <= 247 || |Trimmed(filename)| >= MAX_LFN_LENGTH
    modifies partition.Repr()
    ensures partition.Valid() && DirKept(partition.g, old(partition.Now()), partition.Now(), dir)
    ensures Contains(partition.g, partition.Now(), dir, items', rest')
    ensures ok <==>
            Addable(Listing(items), Trimmed(filename), DirSlots(partition.g, old(partition.Now()), dir),
                    DirCapacity(partition.g, old(partition.Now()), dir))
    ensures ok ==> partition.HintOk()
    ensures ok ==>
              exists s, x :: AddedAt(DirSlots(partition.g, old(partition.Now()), dir), items, items',
                                     Trimmed(filename), entryData[11..], s, x)
    ensures !ok ==> items' == items
  {
    hide ByteOffset, Geometry.Valid, Cache.Valid, Cache.Touched, FatEntries.Links, Chains.WellFormed, Raw, DirSlots,
         SlotAt, SnapOk, DirKept, Listing, Taken, Listings.WellFormed, AddedAt, AliasChosen, AliasShape, FreeSet,
         Phantom, ShortSlot, Trimmed, ValidLfn, HasRoom, NoAliasLeft, DirCapacity;
    ghost var g, s0 := partition.g, partition.Now();
    items', rest' := items, rest;
    DirKeptRefl(g, s0, dir);
    var name := TrimSpaces(filename);
    AsciiPart(filename);
    if |name| < 1 { return false, items, rest; }
    var lfnLen := LfnLength(name);
    if lfnLen < 0 { return false, items, rest; }
    ValidIsAscii(name);
    var exists_ := EntryExists(partition, name, dirCluster, dir, items, rest);
    if exists_ { return false, items, rest; }
    ok, items', rest' := AddNamed(partition, name, entryData, dirCluster, dir, items, rest);
  }

  lemma AsciiPart(filename: Text)
    requires forall i :: 0 <= i < |filename| ==> filename[i] < 0x80
    ensures forall i :: 0 <= i < |Trimmed(filename)| ==> Trimmed(filename)[i] < 0x80
  {
  }

  lemma ValidIsAscii(name: Text)
    requires ValidLfn(name)
    ensures Ascii(name) && |name| < MAX_LFN_LENGTH
  {
  }

  /** Finds room for an entry and writes it there. */
  method Place(partition: Partition, name: Text, slot: Slot, entrySize: nat, aliasCheckSum: byte, dirCluster: nat,
               ghost dir: nat)
    returns (ok: bool, ghost lfns: seq<Slot>, ghost t: seq<Slot>, ghost s: nat)
    requires partition.Valid() && partition.HintOk() && DirOk(partition.g, partition.Now(), dir) && dirCluster == dir
    requires && |slot| == SLOT_SIZE
             && Ascii(name)
             && 0 < |name| <= 247
             && (entrySize == 1 || entrySize == LongNames.Parts(|name|) + 1)
    modifies partition.Repr()
    ensures && partition.Valid()
            && DirKept(partition.g, old(partition.Now()), partition.Now(), dir)
            && DirOk(partition.g, partition.Now(), dir)
    ensures GapOutcome(DirSlots(partition.g, old(partition.Now()), dir), t, entrySize,
                       DirCapacity(partition.g, old(partition.Now()), dir), ok, s)
    ensures ok ==>
              && partition.HintOk() && Written(t, DirSlots(partition.g, partition.Now(), dir), s, lfns + [slot])
              && |lfns| == entrySize - 1 && (entrySize > 1 ==> NameParts(lfns, name, aliasCheckSum))
    ensures !ok ==> t == DirSlots(partition.g, partition.Now(), dir)
  {
    hide ByteOffset, Geometry.Valid, Cache.Valid, Cache.Touched, FatEntries.Links, Chains.WellFormed, Raw, DirSlots,
         SlotAt, SnapOk, DirKept, FreeSet, Phantom, NameParts, Written, GapOutcome, DirCapacity;
    ghost var g, s0 := partition.g, partition.Now();
    var dataStart, dataEnd;
    ok, dataStart, dataEnd, s := FindEntryGap(partition, dirCluster, entrySize, dir);
    ghost var s1 := partition.Now();
    t, lfns := DirSlots(g, s1, dir), [];
    if ok {
      SlotInside(g, s1, dir, s + entrySize - 1, dataEnd);
      lfns := WriteEntry(partition, dataStart, name, slot, entrySize, aliasCheckSum, dir, s);
      DirKeptTrans(g, s0, s1, partition.Now(), dir);
    }
  }

  /** A valid name that is not taken. */
  method AddNamed(partition: Partition, name: Text, entryData: Slot, dirCluster: nat, ghost dir: nat,
                  ghost items: seq<Item>, ghost rest: seq<Slot>)
    returns (ok: bool, ghost items': seq<Item>, ghost rest': seq<Slot>)
    requires && partition.Valid()
             && partition.HintOk()
             && Contains(partition.g, partition.Now(), dir, items, rest)
             && dirCluster == dir
    requires PlainData(entryData) && Ascii(name) && 0 < |name| <= 247 && !Taken(Listing(items), name)
    modifies partition.Repr()
    ensures partition.Valid() && DirKept(partition.g, old(partition.Now()), partition.Now(), dir)
    ensures Contains(partition.g, partition.Now(), dir, items', rest')
    ensures ok <==> !NoAliasLeft(Listing(items), name)
                    && HasRoom(DirSlots(partition.g, old(partition.Now()), dir), EntrySize(name),
                               DirCapacity(partition.g, old(partition.Now()), dir))
    ensures ok ==>
              && partition.HintOk()
              && exists s, x :: AddedAt(DirSlots(partition.g, old(partition.Now()), dir), items, items', name,
                                        entryData[11..], s, x)
    ensures !ok ==> items' == items
  {
    hide ByteOffset, Geometry.Valid, Cache.Valid, Cache.Touched, FatEntries.Links, Chains.WellFormed, Raw, DirSlots,
         SlotAt, SnapOk, DirKept, Listing, Taken, Listings.WellFormed, Adds, InsertedAt, AliasShape, FreeSet, Phantom,
         ShortSlot, ItemOk, ItemSlots, ShownItem, NameParts, Checksum, Written, RoomInside, RoomAtEnd, SameUpTo,
         ShortForm, LeavesNothing, BlankExtension, HasRoom, GoesTo, DirCapacity, EndOf;
    ghost var d := DirSlots(partition.g, partition.Now(), dir);
    DirKeptRefl(partition.g, partition.Now(), dir);
    ghost var lfns, t, s, it;
    var slot: Slot, entrySize := entryData, 1;
    items', rest' := items, rest;
    if IsDots(name) {
      DotsSlot(entryData, name);
      slot := WithName(entryData, DotSlot(name));
      ok, lfns, t, s := Place(partition, name, slot, 1, 0, dirCluster, dir);
      if ok {
        it := DotsItem(Listing(items), name, entryData, slot);
        assert lfns + [slot] == [] + [slot];
      }
    } else {
      var alias;
      ok, entrySize, alias := ChooseAlias(partition, name, dirCluster, dir, items, rest);
      if !ok { return; }
      ChosenShape(Listing(items), name, entrySize, alias);
      var chars := CopyAlias(alias);
      ShortSlotBytes(alias);
      slot := WithName(entryData, chars);
      var aliasCheckSum := AliasChecksum(slot);
      ok, lfns, t, s := Place(partition, name, slot, entrySize, aliasCheckSum, dirCluster, dir);
      if ok { it := ItemFor(Listing(items), name, entryData, entrySize, alias, lfns, slot); }
    }
    if ok {
      items', rest' := InTheRoom(d, t, DirSlots(partition.g, partition.Now(), dir), items, rest, s, entrySize, it);
      assert AddedAt(d, items, items', name, entryData[11..], s, ShownItem(it));
    } else {
      SameItems(d, DirSlots(partition.g, partition.Now(), dir), items, rest);
      rest' := DirSlots(partition.g, partition.Now(), dir)[EndOf(d)..];
    }
  }
}
