/** What an added entry looks like in its slots and in the listing (source/directory.c). */
module NewEntries {
  import opened Bytes
  import opened Names
  import opened Slots
  import opened LongNames
  import opened NumericTails
  import opened Listings

  function Trimmed(s: Text): (r: Text)
    ensures r <= s && (r != [] ==> r[|r| - 1] != SPACE) && forall i :: |r| <= i < |s| ==> s[i] == SPACE
  {
    if s != [] && s[|s| - 1] == SPACE then Trimmed(s[..|s| - 1]) else s
  }

  method TrimSpaces(filename: Text) returns (name: Text)
    ensures name == Trimmed(filename)
  {
    var i := |filename|;
    while i > 0 && filename[i - 1] == SPACE
      invariant 0 <= i <= |filename| && Trimmed(filename[..i]) == Trimmed(filename)
    {
      assert filename[..i][..i - 1] == filename[..i - 1];
      i := i - 1;
    }
    name := filename[..i];
  }

  predicate IsDots(name: Text) {
    name == [DOT] || name == [DOT, DOT]
  }

  // ---- the slot of the alias ----

  function AsBytes(s: Text): (b: seq<byte>)
    requires forall i :: 0 <= i < |s| ==> s[i] < 0x100
    ensures |b| == |s| && forall i :: 0 <= i < |b| ==> b[i] as nat == s[i]
  {
    seq(|s|, i requires 0 <= i < |s| => s[i])
  }

  /** The entry data with the eleven characters of a name before it. */
  function WithName(entryData: Slot, chars: Text): (slot: Slot)
    requires |entryData| == SLOT_SIZE && |chars| == 11 && forall i :: 0 <= i < 11 ==> chars[i] < 0x100
    ensures |slot| == SLOT_SIZE && slot[..11] == AsBytes(chars) && slot[11..] == entryData[11..]
  {
    AsBytes(chars) + entryData[11..]
  }

  /** Entry data of a file or a directory. */
  predicate PlainData(entryData: Slot) {
    |entryData| == SLOT_SIZE && !IsLfn(entryData) && !IsVolume(entryData)
  }

  lemma ShortSlotBytes(a: Text)
    requires AliasShape(a)
    ensures forall i :: 0 <= i < 11 ==> ShortSlot(a)[i] < 0x100
    ensures a != [] && a[0] != DOT ==> ShortSlot(a)[0] == a[0] && Clean(a[0])
    ensures a == [] ==> ShortSlot(a)[0] == SPACE
  {
    var p := FirstDot(a);
    var base, ext := a[..p], if p < |a| then a[p + 1..] else [];
    assert forall i :: 0 <= i < p ==> Clean(base[i]);
    assert forall i :: 0 <= i < |ext| ==> Clean(ext[i]);
    CharsBelow(base, 8);
    CharsBelow(ext, 3);
    if a != [] && a[0] != DOT { assert Pad(base, 8)[0] == base[0]; }
  }

  lemma CharsBelow(s: Text, n: nat)
    requires |s| <= n && forall i :: 0 <= i < |s| ==> Clean(s[i])
    ensures forall i :: 0 <= i < n ==> Pad(s, n)[i] < 0x100
  {
    forall i | 0 <= i < n ensures Pad(s, n)[i] < 0x100 {
      if i < |s| { assert Pad(s, n)[i] == Pad(s, n)[..|s|][i]; }
    }
  }

  /** A slot with an alias is an entry and shows the alias. */
  lemma AliasSlot(entryData: Slot, a: Text)
    requires PlainData(entryData) && AliasShape(a) && a != [] && a[0] != DOT
    ensures forall i :: 0 <= i < 11 ==> ShortSlot(a)[i] < 0x100
    ensures var slot := WithName(entryData, ShortSlot(a));
            && KindOf(slot) == Entry
            && SameName(SlotAlias(slot), WithoutFinalDot(a))
            && (slot[11..][1] as nat / 8 % 4 == 0 ==> SlotAlias(slot) == WithoutFinalDot(a))
            && Checksum(slot[..11]) == Checksum(ShortSlot(a))
  {
    hide AliasShape, AliasText, SameName, Checksum, ShortSlot, WithoutFinalDot;
    ShortSlotBytes(a);
    var slot := WithName(entryData, ShortSlot(a));
    FlagBits(slot[12] as nat);
    assert slot[11..][1] == slot[12];
    Attributes(entryData, slot);
    AsText(ShortSlot(a));
    assert slot[0] == slot[..11][0];
    AliasRoundTrip(a, HasFlag(slot, CASE_LOWER_BASE), HasFlag(slot, CASE_LOWER_EXT));
  }

  lemma Attributes(entryData: Slot, slot: Slot)
    requires |entryData| == SLOT_SIZE && |slot| == SLOT_SIZE && slot[11..] == entryData[11..]
    ensures IsLfn(slot) == IsLfn(entryData) && IsVolume(slot) == IsVolume(entryData)
  {
    assert slot[11..][0] == slot[11] && entryData[11..][0] == entryData[11];
  }

  /** Characters as bytes are the same text. */
  lemma AsText(s: Text)
    requires forall i :: 0 <= i < |s| ==> s[i] < 0x100
    ensures AsBytes(s) == s
  {
  }

  /** A slot of eleven spaces is no entry and hides nothing. */
  lemma BlankSlot(entryData: Slot)
    requires PlainData(entryData)
    ensures forall i :: 0 <= i < 11 ==> ShortSlot([])[i] < 0x100
    ensures SkipOk(WithName(entryData, ShortSlot([])))
  {
    ShortSlotBytes([]);
    var slot := WithName(entryData, ShortSlot([]));
    Attributes(entryData, slot);
    assert slot[0] == slot[..11][0];
  }

  function DotSlot(name: Text): Text
    requires IsDots(name)
  {
    name + seq(11 - |name|, i => SPACE)
  }

  lemma DotsSlot(entryData: Slot, name: Text)
    requires PlainData(entryData) && IsDots(name)
    ensures |DotSlot(name)| == 11 && forall i :: 0 <= i < 11 ==> DotSlot(name)[i] < 0x100
    ensures var slot := WithName(entryData, DotSlot(name)); KindOf(slot) == Entry && SlotAlias(slot) == name
  {
    var slot := WithName(entryData, DotSlot(name));
    Attributes(entryData, slot);
    AsText(DotSlot(name));
    assert slot[0] == slot[..11][0] && slot[1] == slot[..11][1];
  }

  // ---- the alias of a long name ----

  /** A name that is stored in long form, with an alias of its own. */
  predicate NeedsAlias(name: Text) {
    !IsDots(name) && !ShortForm(name) && !LeavesNothing(name)
  }

  /** The slots an entry of this name takes. */
  function EntrySize(name: Text): (n: nat)
    ensures n > 0
  {
    if NeedsAlias(name) then Parts(|name|) + 1 else 1
  }

  /** What the numbered variants are made from. */
  function VariantBase(name: Text): (r: Text)
    requires Ascii(name)
    ensures AliasShape(r) && |r| >= 8 && FirstDot(r) == 8 && r[8..] == AliasOf(name)[FirstDot(AliasOf(name))..]
  {
    AliasFacts(name);
    Expanded(AliasOf(name))
  }

  /** The alias is the name itself, but for the case of letters, and nothing has that name. */
  ghost predicate OwnAlias(before: seq<Listed>, name: Text) {
    SameName(AliasOf(name), name) && !Taken(before, AliasOf(name))
  }

  /** The alias a long name gets: its own, or the first numbered variant that is not taken. */
  ghost predicate IsAliasOf(before: seq<Listed>, name: Text, a: Text)
    requires Ascii(name)
  {
    if OwnAlias(before, name) then a == AliasOf(name) else FirstUntaken(before, VariantBase(name), a)
  }

  ghost predicate NoAliasLeft(before: seq<Listed>, name: Text)
    requires Ascii(name)
  {
    NeedsAlias(name) && !OwnAlias(before, name) && AllVariantsTaken(before, VariantBase(name))
  }

  /** Below 500,000 entries there is always an alias. */
  lemma AliasAlwaysLeft(before: seq<Listed>, name: Text)
    requires Ascii(name) && |before| < 500000
    ensures !NoAliasLeft(before, name)
  {
    hide Candidate, Taken, AliasOf, FirstDot;
    if AllVariantsTaken(before, VariantBase(name)) { AllTaken(before, VariantBase(name), MAX_NUMERIC_TAIL); }
  }

  /** Such an alias is in 8.3 form, not taken, and ends in a period exactly for a blank extension. */
  lemma {:induction false} AliasIsGood(before: seq<Listed>, name: Text, a: Text)
    requires Ascii(name) && NeedsAlias(name) && IsAliasOf(before, name, a)
    ensures AliasShape(a) && a != [] && a[0] != DOT && !Taken(before, a)
    ensures a[|a| - 1] == DOT <==> BlankExtension(name)
  {
    hide AliasShape, FirstDot, BlankExtension, LeavesNothing, ShortForm, SameName, Taken, Candidate, AliasOf;
    AliasFacts(name);
    var b := AliasOf(name);
    if OwnAlias(before, name) {
      NotFromDots(b, name);
    } else {
      var i: nat :| 1 <= i <= MAX_NUMERIC_TAIL && VariantIs(before, VariantBase(name), i, a);
      CandidateShape(VariantBase(name), i);
      SameTailEnd(b, a);
    }
  }

  /** An alias that is the name itself, up to case, does not start with a period. */
  lemma NotFromDots(alias: Text, name: Text)
    requires AliasShape(alias) && alias != []
    requires alias[0] == DOT ==> LeadingDots(name) < |name| && name[LeadingDots(name)] == SPACE
    ensures SameName(alias, name) ==> alias[0] != DOT
  {
    if alias[0] == DOT {
      NoSpaces(alias);
      var k := LeadingDots(name);
      assert k < |alias| ==> Lower(alias[k]) != Lower(name[k]);
    }
  }

  lemma NoSpaces(alias: Text)
    requires AliasShape(alias)
    ensures forall i :: 0 <= i < |alias| ==> alias[i] != SPACE && Lower(alias[i]) != SPACE
  {
    var p := FirstDot(alias);
    forall i | 0 <= i < |alias| ensures alias[i] != SPACE && Lower(alias[i]) != SPACE {
      if i < p {
        assert Clean(alias[..p][i]);
      } else if i > p {
        assert Clean(alias[p + 1..][i - p - 1]);
      }
    }
  }

  /** The numbered variant ends in a period exactly if the alias does. */
  lemma SameTailEnd(alias: Text, numbered: Text)
    requires alias != [] && |numbered| >= 8 && FirstDot(numbered) == 8 && numbered[8..] == alias[FirstDot(alias)..]
    ensures numbered[|numbered| - 1] == DOT <==> alias[|alias| - 1] == DOT
  {
    var p := FirstDot(alias);
    if p < |alias| {
      assert numbered[|numbered| - 1] == numbered[8..][|alias| - p - 1] == alias[p..][|alias| - p - 1]
             == alias[|alias| - 1];
    }
  }

  // ---- what is listed afterwards ----

  /** The entry e that adding `name` to a directory puts into its listing. */
  ghost predicate AddedEntry(before: seq<Listed>, name: Text, e: Listed) {
    && !Taken(before, name)
    && if IsDots(name) then e.name == e.alias == name
       else if ShortForm(name) then e.name == e.alias && Shows(e, WithoutFinalDot(name))
       else e.name == name && NeedsAlias(name) && exists a :: AliasFor(before, name, e, a)
  }

  /** The entry shows the alias a as its slot holds it: without a period at its end, and as it is
      unless the flags for lower case are set. */
  ghost predicate Shows(e: Listed, a: Text) {
    && SameName(e.alias, WithoutFinalDot(a))
    && (|e.data| > 1 && e.data[1] as nat / 8 % 4 == 0 ==> e.alias == WithoutFinalDot(a))
  }

  ghost predicate AliasFor(before: seq<Listed>, name: Text, e: Listed, a: Text) {
    Ascii(name) && IsAliasOf(before, name, a) && Shows(e, a)
  }

  lemma TakenSame(ents: seq<Listed>, s: Text, t: Text)
    requires SameName(s, t)
    ensures Taken(ents, s) <==> Taken(ents, t)
  {
    if Taken(ents, s) {
      var k :| 0 <= k < |ents| && (SameName(s, ents[k].name) || SameName(s, ents[k].alias));
      assert SameName(t, ents[k].name) || SameName(t, ents[k].alias);
    }
    if Taken(ents, t) {
      var k :| 0 <= k < |ents| && (SameName(t, ents[k].name) || SameName(t, ents[k].alias));
      assert SameName(s, ents[k].name) || SameName(s, ents[k].alias);
    }
  }

  /** Names for which what is looked up is what is stored. */
  predicate Faithful(name: Text) {
    && (ShortForm(name) && !IsDots(name) ==> name == [] || name[|name| - 1] != DOT)
    && (!ShortForm(name) && !IsDots(name) ==> !BlankExtension(name))
  }

  /** The new entry never shares a name or an alias with another one, whatever the directory, exactly
      for those names: not for a short name with a period at its end, nor for a long one whose
      extension starts with three spaces. */
  lemma UniqueExactly(name: Text)
    requires name != [] && Ascii(name)
    ensures (forall before, e :: AddedEntry(before, name, e) ==> !Taken(before, e.name) && !Taken(before, e.alias)) <==>
            Faithful(name)
  {
    if Faithful(name) {
      forall before, e | AddedEntry(before, name, e) ensures !Taken(before, e.name) && !Taken(before, e.alias) {
        FaithfulIsUnique(before, name, e);
      }
    } else if ShortForm(name) {
      var w := WithoutFinalDot(name);
      OneListed(w, name);
      assert AddedEntry([Listed(w, w, [])], name, Listed(w, w, []));
    } else {
      DoubledAlias(name);
    }
  }

  /** A name that is in short form but for the case of its letters, and does not end in a period, is
      stored in upper case: that is the alias shown, exactly so unless the flags for lower case are set. */
  lemma {:induction false} StoredInUpperCase(before: seq<Listed>, name: Text, e: Listed)
    requires AddedEntry(before, name, e) && Ascii(name) && ShortForm(Uppered(name))
    requires name != [] && name[|name| - 1] != DOT
    ensures SameName(e.alias, name)
    ensures |e.data| > 1 && e.data[1] as nat / 8 % 4 == 0 ==> e.alias == Uppered(name)
  {
    hide Taken, AliasShape, BlankExtension, NeedsAlias, AliasOf, AllClean, LeavesNothing;
    var u := Uppered(name);
    assert WithoutFinalDot(name) == name && WithoutFinalDot(u) == u;
    assert !IsDots(name);
    UpperCasedAlias(name);
    if ShortForm(name) {
      ShortIsUpper(name);
    } else {
      TakenSame(before, name, u);
      assert OwnAlias(before, name);
    }
  }

  lemma ShortIsUpper(name: Text)
    requires ShortForm(name)
    ensures Uppered(name) == name
  {
    var p := FirstDot(name);
    forall i | 0 <= i < |name| ensures Upper(name[i]) == name[i] {
      if i < p {
        assert Clean(name[..p][i]);
      } else if i > p {
        assert Clean(name[p + 1..][i - p - 1]);
      }
    }
  }

  lemma FaithfulIsUnique(before: seq<Listed>, name: Text, e: Listed)
    requires name != [] && Faithful(name) && AddedEntry(before, name, e)
    ensures !Taken(before, e.name) && !Taken(before, e.alias)
  {
    hide Taken, AliasShape, BlankExtension, IsAliasOf, NeedsAlias;
    if IsDots(name) {
    } else if ShortForm(name) {
      assert WithoutFinalDot(name) == name;
      TakenSame(before, e.alias, name);
    } else {
      var a :| AliasFor(before, name, e, a);
      AliasIsGood(before, name, a);
      assert WithoutFinalDot(a) == a;
      TakenSame(before, e.alias, a);
    }
  }

  /** A directory with one entry w knows w and nothing of another length. */
  lemma OneListed(w: Text, t: Text)
    requires |t| != |w|
    ensures Taken([Listed(w, w, [])], w) && !Taken([Listed(w, w, [])], t)
  {
    var l := [Listed(w, w, [])];
    assert l[0] == Listed(w, w, []) && SameName(w, l[0].name);
  }

  /** Such a long name in a directory that has its first variant already, as a short name: the
      variant is looked up with the period, not found, and stored without it. */
  lemma {:induction false} DoubledAlias(name: Text)
    requires Ascii(name) && BlankExtension(name) && !ShortForm(name) && !IsDots(name)
    ensures exists before, e :: AddedEntry(before, name, e) && Taken(before, e.alias)
  {
    hide AliasShape, FirstDot, ShortForm, Candidate, AliasOf;
    AliasFacts(name);
    var a := Candidate(VariantBase(name), 1);
    CandidateShape(VariantBase(name), 1);
    SameTailEnd(AliasOf(name), a);
    NoSpaces(a);
    NoSpaces(AliasOf(name));
    var w := WithoutFinalDot(a);
    var before, e := [Listed(w, w, [])], Listed(name, w, []);
    SpaceApart(w, name);
    SpaceApart(AliasOf(name), name);
    OneListed(w, a);
    assert VariantIs(before, VariantBase(name), 1, a);
    assert AliasFor(before, name, e, a);
    assert AddedEntry(before, name, e);
    assert Taken(before, e.alias);
  }

  /** A text without spaces is not a name with a blank extension, nor does it take that name. */
  lemma SpaceApart(w: Text, name: Text)
    requires BlankExtension(name) && forall i :: 0 <= i < |w| ==> Lower(w[i]) != SPACE
    ensures !SameName(w, name) && !SameName(name, w) && !Taken([Listed(w, w, [])], name)
  {
    var d := LastDot(name);
    assert name[d + 1] == SPACE;
  }
}
