/** A directory as a list of entries: what the enumerator shows of it, and what adding and removing
    entries do to that (source/directory.c). */
module Listings {
  import opened Names
  import opened Slots
  import opened NumericTails

  /** What the slots before the end of a well-formed directory are made of: entries, and slots that
      belong to none (free ones, volume labels). */
  datatype Item = Skip(slot: Slot) | Group(lfns: seq<Slot>, alias: Slot)

  function ItemSlots(it: Item): (s: seq<Slot>)
    ensures |s| > 0
  {
    match it
    case Skip(slot) => [slot]
    case Group(lfns, alias) => lfns + [alias]
  }

  /** A slot that is passed over and leaves no long name behind. */
  ghost predicate SkipOk(slot: Slot) {
    && |slot| == SLOT_SIZE && slot[0] as nat != DIR_ENTRY_LAST
    && KindOf(slot) != Entry && KindOf(slot) != Last
    && (KindOf(slot) == LongName ==> slot[0] as nat >= LFN_DEL || slot[0] as nat < LFN_END)
  }

  ghost predicate ItemOk(it: Item) {
    match it
    case Skip(slot) => SkipOk(slot)
    case Group(lfns, alias) => GroupOk(lfns, alias)
  }

  ghost predicate AllOk(items: seq<Item>) {
    forall k :: 0 <= k < |items| ==> ItemOk(items[k])
  }

  function Flat(items: seq<Item>): seq<Slot> {
    if items == [] then [] else Flat(items[..|items| - 1]) + ItemSlots(items[|items| - 1])
  }

  /** The end of a directory: nothing, or a slot marked as the last and anything behind it. */
  ghost predicate EndOk(rest: seq<Slot>) {
    AllSlots(rest) && (rest != [] ==> rest[0][0] as nat == DIR_ENTRY_LAST && KindOf(rest[0]) == Last)
  }

  ghost predicate WellFormed(d: seq<Slot>, items: seq<Item>, rest: seq<Slot>) {
    AllOk(items) && EndOk(rest) && d == Flat(items) + rest
  }

  /** What a directory shows: the name and the alias of every entry, in order. */
  function Listing(items: seq<Item>): seq<Listed> {
    if items == [] then [] else Listing(items[..|items| - 1]) + ShownItem(items[|items| - 1])
  }

  function ShownItem(it: Item): seq<Listed> {
    match it
    case Skip(_) => []
    case Group(lfns, alias) => Shown(lfns, alias)
  }

  /** An entry of the given name with this alias slot. */
  function ListedAs(name: Text, slot: Slot): Listed
    requires |slot| == SLOT_SIZE
  {
    Listed(name, SlotAlias(slot), slot[11..])
  }

  function Shown(lfns: seq<Slot>, alias: Slot): seq<Listed> {
    if (forall i :: 0 <= i < |lfns| ==> |lfns[i]| == SLOT_SIZE) && |alias| == SLOT_SIZE then
      assert AllSlots(lfns);
      [ListedAs(GroupName(lfns, alias), alias)]
    else []
  }

  // ---- lists of items ----

  lemma FlatPush(items: seq<Item>, it: Item)
    ensures Flat(items + [it]) == Flat(items) + ItemSlots(it)
  {
    assert (items + [it])[..|items|] == items;
  }

  lemma FlatNone()
    ensures Flat([]) == []
  {
  }

  lemma {:induction false} FlatJoin(a: seq<Item>, b: seq<Item>)
    ensures Flat(a + b) == Flat(a) + Flat(b)
    decreases |b|
  {
    hide Flat, ItemSlots;
    FlatNone();
    if b == [] {
      assert a + b == a;
    } else {
      var n := |b| - 1;
      FlatJoin(a, b[..n]);
      FlatPush(a + b[..n], b[n]);
      FlatPush(b[..n], b[n]);
      assert (a + b[..n]) + [b[n]] == a + b && b[..n] + [b[n]] == b;
    }
  }

  lemma ListingPush(items: seq<Item>, it: Item)
    ensures Listing(items + [it]) == Listing(items) + ShownItem(it)
  {
    hide Shown;
    assert (items + [it])[..|items|] == items;
  }

  lemma ListingNone()
    ensures Listing([]) == []
  {
  }

  lemma {:induction false} ListingJoin(a: seq<Item>, b: seq<Item>)
    ensures Listing(a + b) == Listing(a) + Listing(b)
    decreases |b|
  {
    hide Listing, ShownItem;
    ListingNone();
    if b == [] {
      assert a + b == a;
    } else {
      var n := |b| - 1;
      ListingJoin(a, b[..n]);
      ListingPush(a + b[..n], b[n]);
      ListingPush(b[..n], b[n]);
      assert (a + b[..n]) + [b[n]] == a + b && b[..n] + [b[n]] == b;
    }
  }

  /** Where an item of a directory lies. */
  lemma ItemAt(d: seq<Slot>, before: seq<Item>, items: seq<Item>, rest: seq<Slot>)
    requires d == Flat(before + items) + rest && items != []
    ensures before + items == (before + [items[0]]) + items[1..]
    ensures var i, n := |Flat(before)|, |ItemSlots(items[0])|;
            && |Flat(before + [items[0]])| == i + n <= |Flat(before + items)| <= |d|
            && d[i..i + n] == ItemSlots(items[0])
  {
    hide Flat, ItemSlots;
    FlatPush(before, items[0]);
    FlatJoin(before + [items[0]], items[1..]);
    assert before + items == (before + [items[0]]) + items[1..];
  }

  lemma FlatSlots(items: seq<Item>)
    requires AllOk(items)
    ensures AllSlots(Flat(items))
    ensures forall i :: 0 <= i < |Flat(items)| ==> Flat(items)[i][0] as nat != DIR_ENTRY_LAST
  {
    if items != [] {
      FlatSlots(items[..|items| - 1]);
      ItemSlotsOk(items[|items| - 1]);
    }
  }

  lemma ItemSlotsOk(it: Item)
    requires ItemOk(it)
    ensures AllSlots(ItemSlots(it))
    ensures forall i :: 0 <= i < |ItemSlots(it)| ==> ItemSlots(it)[i][0] as nat != DIR_ENTRY_LAST
    ensures it.Group? ==> forall i :: 0 <= i < |ItemSlots(it)| ==> ItemSlots(it)[i][0] as nat != DIR_ENTRY_FREE
  {
    match it
    case Skip(_) =>
    case Group(lfns, alias) =>
      forall j | 0 <= j < |lfns| ensures 0 < lfns[j][0] as nat < LFN_DEL {
        assert PartOk(lfns[j], |lfns| - j, j == 0, Checksum(alias[..11]));
      }
  }

  // ---- the enumerator on well-formed directories ----

  /** The first entry of a list of items, as the place where it starts and ends behind `at`. */
  function FirstFound(items: seq<Item>, at: nat): Outcome {
    if items == [] then NotFound
    else
      match items[0]
      case Skip(_) => FirstFound(items[1..], at + 1)
      case Group(lfns, alias) =>
        if (forall i :: 0 <= i < |lfns| ==> |lfns[i]| == SLOT_SIZE) && |alias| == SLOT_SIZE then
          assert AllSlots(lfns);
          Found(at, at + |lfns|, GroupName(lfns, alias))
        else Undefined
  }

  /** From a boundary between items the enumerator finds the next entry, and nothing behind the end. */
  lemma {:induction false} ScanItems(d: seq<Slot>, before: seq<Item>, items: seq<Item>, rest: seq<Slot>, buf: Text)
    requires WellFormed(d, before + items, rest) && |buf| == MAX_LFN_LENGTH && AllSlots(d)
    ensures Scan(d, |Flat(before)|, Fresh(buf)) == FirstFound(items, |Flat(before)|)
    decreases |items|
  {
    hide StepLfn, LfnDefined, GroupName, Checksum, Flat, ItemSlots, KindOf, SkipOk, GroupOk, TakeEntry;
    var i := |Flat(before)|;
    if items == [] {
      assert before + items == before;
      EndIsNotFound(d, i, rest, buf);
    } else {
      var it := items[0];
      ItemAt(d, before, items, rest);
      assert ItemOk((before + items)[|before|]);
      match it
      case Skip(slot) =>
        SkipSlots(slot);
        assert d[i] == d[i..i + 1][0];
        SkipKeepsFresh(slot, buf, i);
        ScanItems(d, before + [it], items[1..], rest, buf);
      case Group(lfns, alias) =>
        SlotsOfGroup(lfns, alias);
        ScanGroup(d, i, lfns, alias, buf);
    }
  }

  lemma SkipSlots(slot: Slot)
    ensures ItemSlots(Skip(slot)) == [slot]
  {
  }

  lemma SlotsOfGroup(lfns: seq<Slot>, alias: Slot)
    ensures ItemSlots(Group(lfns, alias)) == lfns + [alias]
    ensures GroupOk(lfns, alias) ==> AllSlots(lfns) && |alias| == SLOT_SIZE
  {
  }

  lemma EndIsNotFound(d: seq<Slot>, i: nat, rest: seq<Slot>, buf: Text)
    requires AllSlots(d) && EndOk(rest) && i <= |d| && d[i..] == rest && |buf| == MAX_LFN_LENGTH
    ensures Scan(d, i, Fresh(buf)) == NotFound
  {
    if rest != [] { assert d[i] == d[i..][0]; }
  }

  lemma SkipKeepsFresh(slot: Slot, buf: Text, i: nat)
    requires SkipOk(slot) && |buf| == MAX_LFN_LENGTH
    ensures KindOf(slot) == LongName ==> LfnDefined(Fresh(buf), slot) && StepLfn(Fresh(buf), slot, i) == Fresh(buf)
    ensures KindOf(slot) == LongName || KindOf(slot) == Ignored
  {
  }

  /** All entries from slot i on, found one after the other. */
  function Enumerated(d: seq<Slot>, i: nat, buf: Text): seq<Listed>
    requires AllSlots(d) && |buf| == MAX_LFN_LENGTH
    decreases |d| - i
  {
    match Scan(d, i, Fresh(buf))
    case Found(_, end, name) => if i <= end < |d| then [ListedAs(name, d[end])] + Enumerated(d, end + 1, buf) else []
    case _ => []
  }

  /** The enumerator shows exactly the listing: every entry once, in order, with its name and alias, and
      none of the stale slots behind the end. */
  lemma {:induction false} EnumeratesListing(d: seq<Slot>, before: seq<Item>, items: seq<Item>, rest: seq<Slot>,
                                             buf: Text)
    requires WellFormed(d, before + items, rest) && |buf| == MAX_LFN_LENGTH && AllSlots(d)
    ensures Enumerated(d, |Flat(before)|, buf) == Listing(items)
    decreases |items|
  {
    hide Scan, GroupName, SlotAlias, SkipOk, GroupOk, StepLfn, KindOf, Flat, ItemSlots, Listing, Fresh;
    ScanItems(d, before, items, rest, buf);
    ListingNone();
    if items != [] {
      var it, i := items[0], |Flat(before)|;
      ItemAt(d, before, items, rest);
      assert ItemOk((before + items)[|before|]);
      ListingJoin([it], items[1..]);
      ListingPush([], it);
      assert [] + [it] == [it] && items == [it] + items[1..] && [] + ShownItem(it) == ShownItem(it);
      EnumeratesListing(d, before + [it], items[1..], rest, buf);
      match it
      case Skip(slot) =>
        SkipSlots(slot);
        ScanItems(d, before + [it], items[1..], rest, buf);
        FoundBehind(items[1..], i + 1);
      case Group(lfns, alias) =>
        SlotsOfGroup(lfns, alias);
        assert d[i + |lfns|] == d[i..i + |lfns| + 1][|lfns|];
    }
  }

  lemma FoundBehind(items: seq<Item>, at: nat)
    ensures FirstFound(items, at).Found? ==> at <= FirstFound(items, at).end
  {
    if items != [] && items[0].Skip? { FoundBehind(items[1..], at + 1); }
  }

  // ---- removing ----

  function Freed(slot: Slot): Slot
    requires |slot| == SLOT_SIZE
  {
    slot[0 := DIR_ENTRY_FREE]
  }

  function FreedAll(slots: seq<Slot>): (r: seq<Slot>)
    requires forall k :: 0 <= k < |slots| ==> |slots[k]| == SLOT_SIZE
    ensures |r| == |slots| && forall k :: 0 <= k < |r| ==> r[k] == Freed(slots[k])
  {
    seq(|slots|, k requires 0 <= k < |slots| => Freed(slots[k]))
  }

  function Skips(slots: seq<Slot>): (items: seq<Item>)
    ensures |items| == |slots| && forall k :: 0 <= k < |slots| ==> items[k] == Skip(slots[k])
  {
    seq(|slots|, k requires 0 <= k < |slots| => Skip(slots[k]))
  }

  lemma {:induction false} SkipsFlat(slots: seq<Slot>)
    ensures Flat(Skips(slots)) == slots && Listing(Skips(slots)) == []
  {
    hide Flat, ItemSlots, Listing, ShownItem;
    FlatNone();
    ListingNone();
    if slots == [] {
      assert Skips(slots) == [];
    } else {
      var n := |slots| - 1;
      SkipsFlat(slots[..n]);
      assert Skips(slots) == Skips(slots[..n]) + [Skip(slots[n])];
      FlatPush(Skips(slots[..n]), Skip(slots[n]));
      ListingPush(Skips(slots[..n]), Skip(slots[n]));
      SkipSlots(slots[n]);
      NothingShown(slots[n]);
    }
  }

  lemma FreedIsSkip(slot: Slot)
    requires |slot| == SLOT_SIZE
    ensures SkipOk(Freed(slot))
  {
  }

  /** The slots of an entry marked as free. */
  ghost predicate Marked(d: seq<Slot>, d': seq<Slot>, s: nat, n: nat) {
    && AllSlots(d) && |d'| == |d|
    && forall i :: 0 <= i < |d| ==> d'[i] == if s <= i < s + n then Freed(d[i]) else d[i]
  }

  /** Marking all slots of an entry as free takes that entry from the listing, and only that one. */
  lemma RemoveGroup(d: seq<Slot>, a: seq<Item>, it: Item, b: seq<Item>, rest: seq<Slot>, d': seq<Slot>)
    returns (skips: seq<Item>)
    requires WellFormed(d, a + [it] + b, rest) && it.Group? && Marked(d, d', |Flat(a)|, |ItemSlots(it)|)
    ensures WellFormed(d', a + skips + b, rest)
    ensures Listing(a + [it] + b) == Listing(a) + ShownItem(it) + Listing(b)
    ensures Listing(a + skips + b) == Listing(a) + Listing(b)
  {
    hide Flat, ItemSlots, Listing, ShownItem, SkipOk, GroupOk;
    var s, n, was := |Flat(a)|, |ItemSlots(it)|, ItemSlots(it);
    FlatPush(a, it);
    FlatJoin(a + [it], b);
    assert d == Flat(a) + was + Flat(b) + rest;
    assert ItemOk((a + [it] + b)[|a|]);
    ItemSlotsOk(it);
    var freed := FreedAll(was);
    skips := Skips(freed);
    SkipsFlat(freed);
    FlatJoin(a, skips);
    FlatJoin(a + skips, b);
    forall k | 0 <= k < |skips| ensures ItemOk(skips[k]) { FreedIsSkip(was[k]); }
    MiddleOk(a, it, b, skips);
    MiddleMarked(d, d', Flat(a), was, freed, Flat(b) + rest);
    assert d' == Flat(a + skips + b) + rest;
    ListingPush(a, it);
    ListingJoin(a + [it], b);
    ListingJoin(a, skips);
    ListingJoin(a + skips, b);
  }

  lemma MiddleMarked(d: seq<Slot>, d': seq<Slot>, x: seq<Slot>, was: seq<Slot>, freed: seq<Slot>, y: seq<Slot>)
    requires d == x + was + y && Marked(d, d', |x|, |was|) && AllSlots(was) && freed == FreedAll(was)
    ensures d' == x + freed + y
  {
    forall i | 0 <= i < |d| ensures d'[i] == (x + freed + y)[i] {
      if |x| <= i < |x| + |was| { assert d[i] == was[i - |x|]; }
    }
  }

  lemma MiddleOk(a: seq<Item>, it: Item, b: seq<Item>, c: seq<Item>)
    requires AllOk(a + [it] + b) && AllOk(c)
    ensures AllOk(a + c + b) && AllOk(a) && AllOk(b)
  {
    var x := a + [it] + b;
    forall k | 0 <= k < |a| ensures ItemOk(a[k]) { assert x[k] == a[k]; }
    forall k | 0 <= k < |b| ensures ItemOk(b[k]) { assert x[|a| + 1 + k] == b[k]; }
  }

  // ---- finding a gap ----

  predicate IsFree(slot: Slot)
    requires |slot| == SLOT_SIZE
  {
    slot[0] as nat == DIR_ENTRY_FREE
  }

  /** n free slots from slot s on belong to n items that show nothing. */
  lemma {:induction false} FreeRun(items: seq<Item>, s: nat, n: nat) returns (a: nat)
    requires AllOk(items) && s + n <= |Flat(items)| && AllSlots(Flat(items))
    requires forall p :: s <= p < s + n ==> IsFree(Flat(items)[p])
    requires n > 0 || s == |Flat(items)|
    ensures a + n <= |items| && |Flat(items[..a])| == s && |Flat(items[..a + n])| == s + n
    ensures Listing(items[..a + n]) == Listing(items[..a])
    decreases |items|
  {
    hide Flat, ItemSlots, Listing, ShownItem, SkipOk, GroupOk;
    FlatNone();
    if n == 0 {
      a := |items|;
      assert items[..a] == items;
    } else {
      var m := |items| - 1;
      var front, it := items[..m], items[m];
      assert front + [it] == items;
      FlatPush(front, it);
      ItemSlotsOk(it);
      FlatSlots(front);
      var l := |Flat(front)|;
      if s + n <= l {
        forall p | s <= p < s + n ensures IsFree(Flat(front)[p]) { assert Flat(items)[p] == Flat(front)[p]; }
        a := FreeRun(front, s, n);
      } else {
        var q := if s <= l then l else s;
        assert Flat(items)[q] == ItemSlots(it)[q - l];
        assert it.Skip?;
        SkipSlots(it.slot);
        forall p | s <= p < s + n - 1 ensures IsFree(Flat(front)[p]) { assert Flat(items)[p] == Flat(front)[p]; }
        a := FreeRun(front, s, n - 1);
        EndOfRun(front, a + (n - 1), l);
        assert front[..a + (n - 1)] == front && a + n == |items| && items[..a + n] == items;
        ListingPush(front, it);
        NothingShown(it.slot);
      }
      assert front[..a] == items[..a];
      if s + n <= l { assert front[..a + n] == items[..a + n]; }
    }
  }

  lemma NothingShown(slot: Slot)
    ensures ShownItem(Skip(slot)) == []
  {
  }

  // ---- adding ----

  /** The entries whose slots lie before slot s. */
  function ShownBefore(items: seq<Item>, s: nat): seq<Listed> {
    if items == [] then []
    else if |Flat(items)| <= s then Listing(items)
    else ShownBefore(items[..|items| - 1], s)
  }

  lemma {:induction false} ShownAt(items: seq<Item>, a: nat, s: nat)
    requires a <= |items| && |Flat(items[..a])| == s
    ensures ShownBefore(items, s) == Listing(items[..a])
    decreases |items|
  {
    hide Flat, ItemSlots, Listing;
    if a == |items| {
      assert items[..a] == items;
      ListingNone();
    } else {
      var front, it := items[..|items| - 1], items[|items| - 1];
      assert front + [it] == items && front[..a] == items[..a];
      FlatPush(front, it);
      FlatCut(front, a);
      ShownAt(front, a, s);
    }
  }

  /** The new listing is the old one with x put in behind the entries before slot s. */
  ghost predicate InsertedAt(items: seq<Item>, items': seq<Item>, s: nat, x: seq<Listed>) {
    var before := ShownBefore(items, s);
    before <= Listing(items) && Listing(items') == before + x + Listing(items)[|before|..]
  }

  lemma InsertedBetween(items: seq<Item>, items': seq<Item>, s: nat, a: seq<Listed>, b: seq<Listed>, x: seq<Listed>)
    requires ShownBefore(items, s) == a && Listing(items) == a + b && Listing(items') == a + x + b
    ensures InsertedAt(items, items', s, x)
  {
    hide Listing, ShownBefore;
    assert (a + b)[|a|..] == b;
  }

  /** An item written over free slots before the end. */
  lemma AddInGap(d: seq<Slot>, items: seq<Item>, rest: seq<Slot>, s: nat, it: Item, d': seq<Slot>)
    returns (items': seq<Item>)
    requires WellFormed(d, items, rest) && ItemOk(it) && AllSlots(d)
    requires s + |ItemSlots(it)| <= |Flat(items)|
    requires forall p :: s <= p < s + |ItemSlots(it)| ==> IsFree(d[p])
    requires d' == d[..s] + ItemSlots(it) + d[s + |ItemSlots(it)|..]
    ensures WellFormed(d', items', rest)
    ensures InsertedAt(items, items', s, ShownItem(it))
  {
    hide Flat, ItemSlots, Listing, SkipOk, GroupOk, ShownItem, InsertedAt, ShownBefore;
    var n := |ItemSlots(it)|;
    FlatSlots(items);
    forall p | s <= p < s + n ensures IsFree(Flat(items)[p]) { assert d[p] == Flat(items)[p]; }
    var a := FreeRun(items, s, n);
    var front, back := items[..a], items[a + n..];
    assert items[..a + n] + back == items;
    FlatJoin(items[..a + n], back);
    FlatCut(items, a);
    items' := front + [it] + back;
    FlatPush(front, it);
    FlatJoin(front + [it], back);
    assert d[..s] == Flat(front) && d[s + n..] == Flat(back) + rest;
    assert d' == Flat(items') + rest;
    NewItems(items, a, a + n, it);
    ListingJoin(items[..a + n], back);
    ListingPush(front, it);
    ListingJoin(front + [it], back);
    ShownAt(items, a, s);
    InsertedBetween(items, items', s, Listing(front), Listing(back), ShownItem(it));
  }

  lemma NewItems(items: seq<Item>, a: nat, b: nat, it: Item)
    requires AllOk(items) && a <= b <= |items| && ItemOk(it)
    ensures AllOk(items[..a] + [it] + items[b..]) && AllOk(items[..a] + [it])
  {
    var x := items[..a] + [it] + items[b..];
    forall k | 0 <= k < |x| ensures ItemOk(x[k]) {
      if k > a { assert x[k] == items[b + (k - a - 1)]; }
    }
    var y := items[..a] + [it];
    forall k | 0 <= k < |y| ensures ItemOk(y[k]) { assert y[k] == x[k]; }
  }

  lemma FlatCut(items: seq<Item>, a: nat)
    requires a <= |items|
    ensures |Flat(items[..a])| <= |Flat(items)| && Flat(items)[..|Flat(items[..a])|] == Flat(items[..a])
  {
    assert items[..a] + items[a..] == items;
    FlatJoin(items[..a], items[a..]);
  }

  lemma ShownGroup(lfns: seq<Slot>, alias: Slot)
    requires GroupOk(lfns, alias)
    ensures AllSlots(lfns) && |alias| == SLOT_SIZE
    ensures ShownItem(Group(lfns, alias)) == [ListedAs(GroupName(lfns, alias), alias)]
  {
  }

  /** An item written at the end, over the free slots before it if there are any, with a new end
      mark behind it: what was behind the old end stays hidden. */
  lemma AddAtEnd(d: seq<Slot>, items: seq<Item>, rest: seq<Slot>, s: nat, it: Item, rest': seq<Slot>, d': seq<Slot>)
    returns (items': seq<Item>)
    requires WellFormed(d, items, rest) && ItemOk(it) && AllSlots(d) && EndOk(rest')
    requires s <= |Flat(items)| && forall p :: s <= p < |Flat(items)| ==> IsFree(d[p])
    requires d' == d[..s] + ItemSlots(it) + rest'
    ensures WellFormed(d', items', rest')
    ensures InsertedAt(items, items', s, ShownItem(it))
  {
    hide Flat, ItemSlots, Listing, SkipOk, GroupOk, ShownItem, InsertedAt, ShownBefore;
    var n := |Flat(items)| - s;
    FlatSlots(items);
    forall p | s <= p < s + n ensures IsFree(Flat(items)[p]) { assert d[p] == Flat(items)[p]; }
    var a := FreeRun(items, s, n);
    var front := items[..a];
    EndOfRun(items, a + n, s + n);
    FlatCut(items, a);
    items' := front + [it];
    FlatPush(front, it);
    assert d[..s] == Flat(front);
    NewItems(items, a, |items|, it);
    ListingPush(front, it);
    ShownAt(items, a, s);
    assert && Listing(front) + [] == Listing(front)
           && Listing(front) + ShownItem(it) + [] == Listing(front) + ShownItem(it);
    InsertedBetween(items, items', s, Listing(front), [], ShownItem(it));
  }

  /** A prefix of the items with all of the slots is all of the items. */
  lemma EndOfRun(items: seq<Item>, b: nat, n: nat)
    requires b <= |items| && |Flat(items[..b])| == n == |Flat(items)|
    ensures items[..b] == items
  {
    hide Flat, ItemSlots;
    if b < |items| {
      FlatPush(items[..b], items[b]);
      assert items[..b] + [items[b]] == items[..b + 1];
      FlatCut(items, b + 1);
    }
  }

  // ---- one search step on a well-formed directory ----

  /** The first entry of a list of items is an item; those before it show nothing. */
  lemma {:induction false} FoundIs(items: seq<Item>, at: nat) returns (m: nat)
    requires AllOk(items)
    ensures FirstFound(items, at) != Undefined
    ensures FirstFound(items, at) == NotFound ==> Listing(items) == []
    ensures FirstFound(items, at).Found? ==>
              && m < |items| && items[m].Group? && Listing(items[..m]) == [] && GroupOk(items[m].lfns, items[m].alias)
              && FirstFound(items, at)
                 == Found(at + |Flat(items[..m])|, at + |Flat(items[..m])| + |items[m].lfns|,
                          GroupName(items[m].lfns, items[m].alias))
    decreases |items|
  {
    hide Flat, ItemSlots, Listing, SkipOk, GroupOk, GroupName, ShownItem;
    FlatNone();
    ListingNone();
    m := 0;
    if items == [] {
    } else {
      var it := items[0];
      assert ItemOk(it);
      match it
      case Skip(slot) =>
        m := FoundIs(items[1..], at + 1);
        m := m + 1;
        assert items == [it] + items[1..];
        ListingPush([], it);
        NothingShown(slot);
        assert [] + [it] == [it];
        if FirstFound(items, at) == NotFound {
          ListingJoin([it], items[1..]);
        } else {
          assert items[..m] == [it] + items[1..][..m - 1];
          ListingJoin([it], items[1..][..m - 1]);
          FlatJoin([it], items[1..][..m - 1]);
          FlatPush([], it);
          SkipSlots(slot);
        }
      case Group(lfns, alias) =>
        SlotsOfGroup(lfns, alias);
        assert items[..0] == [];
    }
  }

  /** What an item of one slot shows, by its bytes: a slot that is no part of a long name, no volume
      label, and neither free nor an end, is listed under its own name, a subdirectory like a file; a
      slot marked with 0xE5 and a volume label are not. */
  lemma OneSlotShown(slot: Slot)
    requires |slot| == 32 && slot[11] != 0x0F
    ensures slot[11] as nat % 16 < 8 && slot[0] > 0x20 && slot[0] != 0xE5 ==>
              && ItemOk(Group([], slot))
              && ShownItem(Group([], slot)) == [Listed(SlotAlias(slot), SlotAlias(slot), slot[11..])]
    ensures slot[0] == 0xE5 || (slot[0] != 0 && slot[11] as nat % 16 >= 8) ==>
              ItemOk(Skip(slot)) && ShownItem(Skip(slot)) == []
  {
    hide SlotAlias, Checksum;
    ThirdBit(slot[11]);
  }

  lemma FreedBytes(slot: Slot)
    requires |slot| == 32
    ensures Freed(slot) == [0xE5] + slot[1..]
  {
  }

  /** From the boundary behind the first b items the search finds the next group, or shows that there is none. */
  lemma NextGroup(d: seq<Slot>, items: seq<Item>, rest: seq<Slot>, b: nat, buf: Text) returns (m: nat)
    requires WellFormed(d, items, rest) && b <= |items| && AllSlots(d) && |buf| == MAX_LFN_LENGTH
    ensures var o := Scan(d, |Flat(items[..b])|, Fresh(buf));
            && o != Undefined
            && (o == NotFound ==> Listing(items) == Listing(items[..b]))
            && (o.Found? ==>
                  && b <= m < |items| && items[m].Group? && GroupOk(items[m].lfns, items[m].alias)
                  && o
                     == Found(|Flat(items[..m])|, |Flat(items[..m + 1])| - 1, GroupName(items[m].lfns, items[m].alias))
                  && o.end < |d| && d[o.end] == items[m].alias
                  && Listing(items[..m + 1])
                     == Listing(items[..b]) + [ListedAs(GroupName(items[m].lfns, items[m].alias), items[m].alias)])
  {
    hide Flat, ItemSlots, Listing, SkipOk, GroupOk, GroupName, ShownItem, Scan, SlotAlias;
    var before, after := items[..b], items[b..];
    assert before + after == items;
    forall k | 0 <= k < |after| ensures ItemOk(after[k]) { assert items[b + k] == after[k]; }
    ScanItems(d, before, after, rest, buf);
    var q := FoundIs(after, |Flat(before)|);
    m := b + q;
    if FirstFound(after, |Flat(before)|) == NotFound {
      ListingJoin(before, after);
    } else {
      var it := items[m];
      assert items[..m] == before + after[..q] && items[..m + 1] == items[..m] + [it];
      FlatJoin(before, after[..q]);
      ListingJoin(before, after[..q]);
      FlatPush(items[..m], it);
      ListingPush(items[..m], it);
      SlotsOfGroup(it.lfns, it.alias);
      ShownGroup(it.lfns, it.alias);
      FlatCut(items, m + 1);
      var e := |Flat(items[..m + 1])| - 1;
      assert Flat(items[..m + 1])[e] == it.alias;
    }
  }

  lemma TakenPush(ents: seq<Listed>, e: Listed, t: Text)
    ensures Taken(ents + [e], t) <==> Taken(ents, t) || SameName(t, e.name) || SameName(t, e.alias)
  {
    hide SameName;
    var all := ents + [e];
    if Taken(ents, t) {
      var k :| 0 <= k < |ents| && (SameName(t, ents[k].name) || SameName(t, ents[k].alias));
      assert all[k] == ents[k];
    }
    assert all[|ents|] == e;
  }
}
