/** Where a directory has room for a new entry: the scan for free slots and the end that is moved
    behind it (source/directory.c, _FAT_directory_findEntryGap). */
module Gaps {
  import opened Bytes
  import opened Slots
  import opened Listings
  import opened DirBytes

  predicate IsLast(slot: Slot)
    requires |slot| == SLOT_SIZE
  {
    slot[0] as nat == DIR_ENTRY_LAST
  }

  /** e is where the directory ends: at the first slot marked as the last, or behind all slots. */
  ghost predicate EndsAt(d: seq<Slot>, e: nat) {
    && AllSlots(d) && e <= |d| && (e < |d| ==> IsLast(d[e])) && forall k :: 0 <= k < e ==> !IsLast(d[k])
  }

  function EndOf(d: seq<Slot>): (e: nat)
    requires AllSlots(d)
    ensures EndsAt(d, e)
  {
    if d == [] || IsLast(d[0]) then 0 else 1 + EndOf(d[1..])
  }

  lemma EndIsEndOf(d: seq<Slot>, e: nat)
    requires EndsAt(d, e)
    ensures e == EndOf(d)
  {
    hide EndOf;
    assert EndsAt(d, EndOf(d));
  }

  lemma BeforeEndOf(d: seq<Slot>, n: nat)
    requires AllSlots(d) && n <= |d| && forall k :: 0 <= k < n ==> !IsLast(d[k])
    ensures n <= EndOf(d)
  {
    hide EndOf;
    assert EndsAt(d, EndOf(d));
  }

  ghost predicate FreeBetween(d: seq<Slot>, a: nat, b: nat) {
    AllSlots(d) && b <= |d| && forall k :: a <= k < b ==> IsFree(d[k])
  }

  /** Where the free slots right before slot i start. */
  function TrailStart(d: seq<Slot>, i: nat): (s: nat)
    requires AllSlots(d) && i <= |d|
    ensures s <= i && FreeBetween(d, s, i) && (s > 0 ==> !IsFree(d[s - 1]))
  {
    if i > 0 && IsFree(d[i - 1]) then TrailStart(d, i - 1) else i
  }

  lemma TrailIsAll(d: seq<Slot>, a: nat, i: nat)
    requires AllSlots(d) && a <= i && FreeBetween(d, a, i)
    ensures TrailStart(d, i) <= a
  {
    hide TrailStart;
  }

  /** From slot s on there are size free slots in a row. */
  ghost predicate RunAt(d: seq<Slot>, s: nat, size: nat) {
    FreeBetween(d, s, s + size)
  }

  ghost predicate NoRun(d: seq<Slot>, i: nat, size: nat) {
    forall s: nat :: s + size <= i ==> !RunAt(d, s, size)
  }

  ghost predicate FirstRun(d: seq<Slot>, s: nat, size: nat) {
    RunAt(d, s, size) && forall q: nat :: q < s ==> !RunAt(d, q, size)
  }

  // ---- what a directory has room for ----

  /** Whether an entry of so many slots fits: into a gap before the end, or at the end, where the
      directory must hold the entry and a new end mark behind it.  cap is the number of bytes the
      directory can have. */
  ghost predicate HasRoom(d: seq<Slot>, size: nat, cap: nat)
    requires AllSlots(d)
  {
    !NoRun(d, EndOf(d), size) || 32 * (TrailStart(d, EndOf(d)) + size + 1) <= cap
  }

  /** Where it goes: into the first gap, or over the free slots right before the end. */
  ghost predicate GoesTo(d: seq<Slot>, size: nat, s: nat)
    requires AllSlots(d)
  {
    if NoRun(d, EndOf(d), size) then s == TrailStart(d, EndOf(d)) else FirstRun(d, s, size) && s + size <= EndOf(d)
  }

  /** No entry before e changed, and the directory still ends there. */
  ghost predicate SameUpTo(d: seq<Slot>, d': seq<Slot>, e: nat) {
    && AllSlots(d) && AllSlots(d') && e <= |d| <= |d'| && d'[..e] == d[..e]
    && (e < |d'| ==> d'[e] == Zeros(32) || (e < |d| && d'[e] == d[e]))
  }

  /** Room for size slots from s on, all of them free, before the end. */
  ghost predicate RoomInside(d: seq<Slot>, d': seq<Slot>, s: nat, size: nat) {
    d' == d && s + size <= |d| && FreeBetween(d, s, s + size) && forall k :: 0 <= k < s + size ==> !IsLast(d[k])
  }

  /** Room made at the end e, over the last free slots before it, with a blank slot behind as the new end. */
  ghost predicate RoomAtEnd(d: seq<Slot>, d': seq<Slot>, s: nat, size: nat, e: nat) {
    && EndsAt(d, e) && s <= e < s + size && FreeBetween(d, s, e) && SameUpTo(d, d', e)
    && s + size < |d'| && d'[s + size] == Zeros(32)
  }

  /** The outcome of looking for room: there is some exactly if the directory has it. */
  ghost predicate GapOutcome(d: seq<Slot>, t: seq<Slot>, size: nat, cap: nat, ok: bool, s: nat)
    requires AllSlots(d)
  {
    && (ok <==> HasRoom(d, size, cap))
    && if ok then
         && GoesTo(d, size, s)
         && (RoomInside(d, t, s, size) || RoomAtEnd(d, t, s, size, EndOf(d)))
       else SameUpTo(d, t, EndOf(d))
  }

  // ---- the scan ----

  /** The scan for a gap is before slot i, with so many slots still wanted. */
  ghost predicate Scanning(d: seq<Slot>, t: seq<Slot>, size: nat, i: nat, remain: nat, s: nat) {
    && AllSlots(d) && AllSlots(t) && i <= |d| && i < |t| && 0 < remain <= size
    && (t == d || (i == |d| && exists n :: t == d + Blanks(n)))
    && (forall k :: 0 <= k < i ==> !IsLast(d[k]))
    && remain + i == size + TrailStart(d, i) && (remain < size ==> s == TrailStart(d, i)) && NoRun(d, i, size)
  }

  /** It has met the end of the directory at slot i. */
  ghost predicate MetEnd(d: seq<Slot>, t: seq<Slot>, size: nat, i: nat, remain: nat, s: nat) {
    && EndsAt(d, i) && i < |t| && SameUpTo(d, t, i) && IsLast(t[i])
    && s == TrailStart(d, i) && s + size == remain + i + 1 && NoRun(d, i, size)
  }

  ghost predicate MetGap(d: seq<Slot>, t: seq<Slot>, size: nat, i: nat, s: nat) {
    && t == d && i < |d| && s + size == i + 1 && FirstRun(d, s, size) && forall k :: 0 <= k <= i ==> !IsLast(d[k])
  }

  /** It has met neither in the whole directory. */
  ghost predicate MetNone(d: seq<Slot>, size: nat) {
    EndsAt(d, |d|) && NoRun(d, |d|, size) && |d| < TrailStart(d, |d|) + size
  }

  lemma ScanStarts(d: seq<Slot>, size: nat)
    requires AllSlots(d) && 0 < |d| && 0 < size
    ensures Scanning(d, d, size, 0, size, 0)
  {
  }

  /** One more slot, and still no run. */
  lemma NoRunYet(d: seq<Slot>, i: nat, size: nat)
    requires AllSlots(d) && i < |d| && NoRun(d, i, size) && i + 1 < TrailStart(d, i + 1) + size
    ensures NoRun(d, i + 1, size)
  {
    hide TrailStart, AllSlots;
    forall s: nat | s + size <= i + 1 ensures !RunAt(d, s, size) {
      if s + size == i + 1 && FreeBetween(d, s, i + 1) { TrailIsAll(d, s, i + 1); }
    }
  }

  /** One slot of the scan. */
  lemma ScanSlot(d: seq<Slot>, t: seq<Slot>, size: nat, i: nat, remain: nat, s: nat)
    requires Scanning(d, t, size, i, remain, s)
    ensures i < |t| && |t[i]| == SLOT_SIZE && 0 < remain <= size
    ensures var s' := if remain == size then i else s;
            && (IsLast(t[i]) ==> MetEnd(d, t, size, i, remain - 1, s'))
            && (!IsLast(t[i]) ==> i < |d| && t == d && forall k :: 0 <= k <= i ==> !IsLast(d[k]))
            && (!IsLast(t[i]) && IsFree(t[i]) ==> s' == TrailStart(d, i + 1) && s' + size == remain - 1 + i + 1)
            && (!IsLast(t[i]) && !IsFree(t[i]) ==> TrailStart(d, i + 1) == i + 1)
            && (IsFree(t[i]) && remain == 1 ==> MetGap(d, t, size, i, s'))
            && (!IsLast(t[i]) && !(IsFree(t[i]) && remain == 1) ==> NoRun(d, i + 1, size))
  {
    if i == |d| {
      assert t[i] == Zeros(32);
    } else if !IsLast(t[i]) && !(IsFree(t[i]) && remain == 1) {
      NoRunYet(d, i, size);
    }
  }

  /** What is known for the next slot, or of the end of all slots. */
  lemma ScanOn(d: seq<Slot>, t: seq<Slot>, t': seq<Slot>, size: nat, i: nat, remain: nat, s: nat)
    requires AllSlots(d) && t == d && i < |d| && 0 < remain <= size && (forall k :: 0 <= k <= i ==> !IsLast(d[k]))
    requires && remain + i + 1 == size + TrailStart(d, i + 1)
             && (remain < size ==> s == TrailStart(d, i + 1))
             && NoRun(d, i + 1, size)
    requires t' == d || (i + 1 == |d| && exists n :: t' == d + Blanks(n))
    ensures i + 1 < |t'| ==> Scanning(d, t', size, i + 1, remain, s)
    ensures i + 1 == |d| ==> MetNone(d, size)
  {
    hide TrailStart;
    if t' != d {
      var n :| t' == d + Blanks(n);
      forall k | 0 <= k < |t'| ensures |t'[k]| == SLOT_SIZE {}
    }
  }

  // ---- making room at the end ----

  /** Behind the end, so many blank slots have been written, the last one at slot j. */
  ghost predicate Blanked(d: seq<Slot>, t: seq<Slot>, e: nat, j: nat) {
    && EndsAt(d, e) && SameUpTo(d, t, e) && e <= j < |t| && IsLast(t[e])
    && forall k :: e < k <= j ==> t[k] == Zeros(32)
  }

  lemma MetBlanked(d: seq<Slot>, t: seq<Slot>, size: nat, e: nat, remain: nat, s: nat)
    requires MetEnd(d, t, size, e, remain, s)
    ensures Blanked(d, t, e, e) && e + (remain + 1) == s + size && s <= e && FreeBetween(d, s, e)
  {
    hide TrailStart;
  }

  lemma BlankedStays(d: seq<Slot>, t: seq<Slot>, t': seq<Slot>, e: nat, j: nat)
    requires Blanked(d, t, e, j) && (t' == t || exists n :: t' == t + Blanks(n))
    ensures Blanked(d, t', e, j)
  {
    if t' != t {
      var n :| t' == t + Blanks(n);
      assert t'[..e] == t[..e];
      forall k | 0 <= k < |t'| ensures |t'[k]| == SLOT_SIZE {}
    }
  }

  lemma BlankNext(d: seq<Slot>, t: seq<Slot>, t': seq<Slot>, e: nat, j: nat, at: nat)
    requires Blanked(d, t, e, j) && (at == j || at == j + 1) && at < |t| && t' == t[at := Zeros(32)]
    ensures Blanked(d, t', e, at)
  {
    assert t'[..e] == t[..e];
  }

  lemma BlankedAll(d: seq<Slot>, t: seq<Slot>, e: nat, j: nat, size: nat, remain: nat, s: nat, valid: bool)
    requires && Blanked(d, t, e, j)
             && e + (remain + 1) == s + size
             && s <= e
             && FreeBetween(d, s, e)
             && (valid ==> j == s + size)
    ensures Blanked(d, t, e, e)
    ensures valid ==> RoomAtEnd(d, t, s, size, e)
  {
  }

  // ---- the outcome ----

  lemma GapIsRoom(d: seq<Slot>, t: seq<Slot>, size: nat, i: nat, s: nat, cap: nat)
    requires MetGap(d, t, size, i, s)
    ensures GapOutcome(d, t, size, cap, true, s) && i == s + size - 1
  {
    BeforeEndOf(d, i + 1);
  }

  lemma NoneIsFull(d: seq<Slot>, size: nat, cap: nat, s: nat)
    requires MetNone(d, size) && cap <= 32 * |d|
    ensures GapOutcome(d, d, size, cap, false, s)
  {
    hide TrailStart, NoRun;
    EndIsEndOf(d, |d|);
  }

  /** At the end: room exactly if there is a slot for the new end mark. */
  lemma EndOutcome(d: seq<Slot>, t0: seq<Slot>, t: seq<Slot>, size: nat, e: nat, remain: nat, s: nat, cap: nat,
                   ok: bool)
    requires MetEnd(d, t0, size, e, remain, s) && Blanked(d, t, e, e) && remain < size
    requires ok ==> RoomAtEnd(d, t, s, size, e) && 32 * |t| <= cap
    requires !ok ==> cap <= 32 * |t| && |t| <= s + size
    ensures GapOutcome(d, t, size, cap, ok, s)
  {
    hide TrailStart, NoRun;
    EndIsEndOf(d, e);
  }
}
