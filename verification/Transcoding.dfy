/** UTF-16 units to UTF-8 bytes and back (source/wcfat.c).  Each 16-bit unit is encoded on its own, so
    the form is that of section 3 of RFC 3629 for every unit outside the surrogates. */
module Transcoding {

  function Narrow(x: bv16): bv8 {
    (x & 0xFF) as bv8
  }

  /** The bytes of one unit. */
  function EncodeUnit(wc: bv16): (e: seq<bv8>)
    ensures 1 <= |e| <= 3
  {
    if wc < 0x80 then [Narrow(wc)]
    else if wc < 0x800 then [Narrow((wc >> 6) | 0xC0), Narrow((wc & 0x3F) | 0x80)]
    else [Narrow((wc >> 12) | 0xE0), Narrow(((wc >> 6) & 0x3F) | 0x80), Narrow((wc & 0x3F) | 0x80)]
  }

  /** A byte that continues a character. */
  predicate Tail(b: bv8) {
    0x80 <= b <= 0xBF
  }

  /** e is the character number u as section 3 of RFC 3629 has it: the range of the first byte tells
      the length, all others are continuation bytes, and the payload bits put together are u. */
  predicate IsUtf8Char(e: seq<bv8>, u: bv16) {
    if u <= 0x7F then |e| == 1 && e[0] as bv16 == u
    else if u <= 0x7FF then
      && |e| == 2 && 0xC2 <= e[0] <= 0xDF && Tail(e[1])
      && ((e[0] & 0x1F) as bv16 << 6) | (e[1] & 0x3F) as bv16 == u
    else
      |e| == 3 && 0xE0 <= e[0] <= 0xEF && Tail(e[1]) && Tail(e[2]) && Payload3(e[0], e[1], e[2]) == u
  }

  /** Four payload bits, six and six. */
  function Payload3(a: bv8, b: bv8, c: bv8): bv16 {
    ((a & 0x0F) as bv16 << 12) | ((b & 0x3F) as bv16 << 6) | (c & 0x3F) as bv16
  }

  function CharSize(u: bv16): (n: nat)
    ensures 1 <= n <= 3
  {
    if u <= 0x7F then 1 else if u <= 0x7FF then 2 else 3
  }

  /** z is made of the characters s, one after the other. */
  predicate IsUtf8(z: seq<bv8>, s: seq<bv16>) {
    if s == [] then z == []
    else
      var u, n := s[|s| - 1], |z| - CharSize(s[|s| - 1]);
      0 <= n && IsUtf8Char(z[n..], u) && IsUtf8(z[..n], s[..|s| - 1])
  }

  lemma ShortUnits(wc: bv16)
    requires wc < 0x800
    ensures IsUtf8Char(EncodeUnit(wc), wc)
  {
  }

  lemma LongUnit(wc: bv16)
    requires 0x800 <= wc
    ensures var a, b, c := Narrow((wc >> 12) | 0xE0), Narrow(((wc >> 6) & 0x3F) | 0x80), Narrow((wc & 0x3F) | 0x80);
            0xE0 <= a <= 0xEF && Tail(b) && Tail(c) && Payload3(a, b, c) == wc
  {
  }

  lemma LongUtf8(wc: bv16, a: bv8, b: bv8, c: bv8)
    requires 0x800 <= wc && 0xE0 <= a <= 0xEF && Tail(b) && Tail(c) && Payload3(a, b, c) == wc
    ensures IsUtf8Char([a, b, c], wc)
  {
    hide Tail, Payload3;
  }

  /** The encoding of every unit is what RFC 3629 says. */
  lemma UnitIsUtf8(wc: bv16)
    ensures IsUtf8Char(EncodeUnit(wc), wc) && |EncodeUnit(wc)| == CharSize(wc)
  {
    hide Narrow, Tail, EncodeUnit, IsUtf8Char, Payload3;
    UnitSize(wc);
    if wc < 0x800 {
      ShortUnits(wc);
    } else {
      EncodeThree(wc);
      LongUnit(wc);
      LongUtf8(wc, Narrow((wc >> 12) | 0xE0), Narrow(((wc >> 6) & 0x3F) | 0x80), Narrow((wc & 0x3F) | 0x80));
    }
  }

  lemma {:induction false} EncodeIsUtf8(s: seq<bv16>)
    ensures IsUtf8(Encode(s), s)
  {
    hide EncodeUnit, IsUtf8Char, CharSize;
    if s != [] {
      var k := |s| - 1;
      var front, e := Encode(s[..k]), EncodeUnit(s[k]);
      EncodeIsUtf8(s[..k]);
      UnitIsUtf8(s[k]);
      assert (front + e)[|front|..] == e && (front + e)[..|front|] == front;
    }
  }

  function Encode(s: seq<bv16>): seq<bv8> {
    if s == [] then [] else Encode(s[..|s| - 1]) + EncodeUnit(s[|s| - 1])
  }

  /** The units before the terminator. */
  ghost predicate Terminated(src: seq<bv16>, n: nat) {
    n < |src| && src[n] == 0 && forall i :: 0 <= i < n ==> src[i] != 0
  }

  /** utf16to8: the longest prefix whose encoding fits, with a zero behind it; never part of a unit. */
  method Utf16To8(dst: array<bv8>, src: seq<bv16>, ghost n: nat) returns (r: nat)
    requires Terminated(src, n)
    modifies dst
    ensures dst.Length == 0 ==> r == 0
    ensures dst.Length > 0 ==>
              exists k :: 0 <= k <= n && r == |Encode(src[..k])| < dst.Length
                       && dst[..r] == Encode(src[..k]) && dst[r] == 0 && IsUtf8(dst[..r], src[..k])
                       && forall m :: 0 <= m <= n && |Encode(src[..m])| < dst.Length ==> m <= k
  {
    if dst.Length == 0 { return 0; }
    var p, i, remaining := 0, 0, dst.Length - 1;
    var fits := true;
    while src[i] != 0 && remaining > 0 && fits
      invariant 0 <= i <= n && 0 <= remaining && 0 <= p && p + remaining == dst.Length - 1
      invariant dst[..p] == Encode(src[..i])
      invariant !fits ==> i < n && |Encode(src[..i + 1])| >= dst.Length
      decreases n - i, fits
    {
      EncodePush(src, i);
      var used;
      fits, used := PutUnit(dst, p, src[i], remaining);
      if fits { p, remaining, i := p + used, remaining - used, i + 1; }
    }
    ghost var done := dst[..p];
    EncodeIsUtf8(src[..i]);
    dst[p] := 0;
    assert dst[..p] == done;
    r := p;
    forall m | 0 <= m <= n && |Encode(src[..m])| < dst.Length ensures m <= i {
      if m > i { LongerPrefix(src, i, m); }
    }
  }

  /** The bytes of one unit at place p, if there is room for all of them. */
  method PutUnit(dst: array<bv8>, p: nat, wc: bv16, remaining: nat) returns (fits: bool, used: nat)
    requires p + remaining < dst.Length
    modifies dst
    ensures fits <==> |EncodeUnit(wc)| <= remaining
    ensures fits ==> used == |EncodeUnit(wc)| && dst[..p + used] == old(dst[..p]) + EncodeUnit(wc)
    ensures !fits ==> dst[..] == old(dst[..])
  {
    if wc < 0x80 {
      if remaining < 1 { return false, 0; }
      dst[p] := Narrow(wc);
      used := 1;
    } else if wc < 0x800 {
      if remaining < 2 { return false, 0; }
      dst[p] := Narrow((wc >> 6) | 0xC0);
      dst[p + 1] := Narrow((wc & 0x3F) | 0x80);
      used := 2;
    } else {
      if remaining < 3 { return false, 0; }
      dst[p] := Narrow((wc >> 12) | 0xE0);
      dst[p + 1] := Narrow(((wc >> 6) & 0x3F) | 0x80);
      dst[p + 2] := Narrow((wc & 0x3F) | 0x80);
      used := 3;
    }
    fits := true;
  }

  lemma EncodePush(s: seq<bv16>, i: nat)
    requires i < |s|
    ensures Encode(s[..i + 1]) == Encode(s[..i]) + EncodeUnit(s[i])
  {
    assert s[..i + 1][..i] == s[..i];
  }

  /** A longer prefix has a longer encoding, by at least the next unit. */
  lemma {:induction false} LongerPrefix(s: seq<bv16>, i: nat, m: nat)
    requires i < m <= |s|
    ensures |Encode(s[..m])| >= |Encode(s[..i + 1])| > |Encode(s[..i])|
    decreases m
  {
    hide Encode;
    EncodePush(s, i);
    if i + 1 < m {
      LongerPrefix(s, i, m - 1);
      EncodePush(s, m - 1);
    }
  }

  // ---- decoding ----

  /** Outcome of reading bytes: the value and the place behind it, or nothing where the bytes run out
      or a shift would be undefined. */
  datatype Step = Step(val: bv32, next: nat) | Undefined

  datatype Result = Result(units: seq<bv16>, next: nat) | Failure

  function First(lead: bv8): bv8 {
    (lead ^ 0x80) << 1
  }

  predicate More(lead: bv8) {
    lead & 0x80 != 0
  }

  function Shifted(lead: bv8): bv8 {
    lead << 1
  }

  function Append6(val: bv32, b: bv8): bv32 {
    (val << 6) | ((b ^ 0x80) as bv32)
  }

  function Finish(val: bv32, lead: bv8, shift: nat): bv32
    requires 1 <= shift <= 32
  {
    val | ((lead as bv32) << (shift - 1))
  }

  /** The continuation bytes that the lead announces. */
  function Continue(z: seq<bv8>, i: nat, lead: bv8, val: bv32, shift: nat): Step
    decreases |z| - i
  {
    if !More(lead) then
      if 1 <= shift <= 32 then Step(Finish(val, lead, shift), i) else Undefined
    else if i >= |z| then Undefined
    else Continue(z, i + 1, Shifted(lead), Append6(val, z[i]), shift + 5)
  }

  /** One unit from place i on. */
  function DecodeUnit(z: seq<bv8>, i: nat): Step
    requires i < |z|
  {
    if z[i] < 0x80 then Step(z[i] as bv32, i + 1) else Continue(z, i + 1, First(z[i]), 0, 0)
  }

  lemma ContinueAdvances(z: seq<bv8>, i: nat, lead: bv8, val: bv32, shift: nat)
    requires Continue(z, i, lead, val, shift).Step? && i <= |z|
    ensures i <= Continue(z, i, lead, val, shift).next <= |z|
    decreases |z| - i
  {
    if More(lead) && i < |z| {
      ContinueAdvances(z, i + 1, Shifted(lead), Append6(val, z[i]), shift + 5);
    }
  }

  function Cut(val: bv32): bv16 {
    (val & 0xFFFF) as bv16
  }

  function Decode(z: seq<bv8>, i: nat, separator: bv8): Result
    decreases |z| - i
  {
    if i >= |z| then Failure
    else if z[i] == separator then Result([], i)
    else
      var step := DecodeUnit(z, i);
      if step.Undefined? || step.next <= i then Failure
      else
        match Decode(z, step.next, separator)
        case Failure => Failure
        case Result(units, next) => Result([Cut(step.val)] + units, next)
  }

  /** utf8to16: on every input for which C defines the outcome, the units up to the separator and a
      zero, and the number of bytes used up. */
  method Utf8To16(z: seq<bv8>, psplit: array<bv16>, separator: bv8) returns (r: nat)
    requires Decode(z, 0, separator).Result? && |Decode(z, 0, separator).units| < psplit.Length
    modifies psplit
    ensures var d := Decode(z, 0, separator);
            && psplit[..|d.units| + 1] == d.units + [0] && d.next < |z|
            && r == if z[d.next] != 0 then d.next + 1 else d.next
  {
    hide Cut, Continue, First, DecodeUnit, Decode;
    var i, q := 0, 0;
    NotEmpty(z, separator);
    ghost var d := Decode(z, 0, separator);
    while z[i] != separator
      invariant 0 <= i < |z| && Decode(z, i, separator).Result?
      invariant 0 <= q <= |d.units| && psplit[..q] == d.units[..q]
      invariant Decode(z, i, separator) == Result(d.units[q..], d.next)
      decreases |z| - i
    {
      ghost var before := psplit[..q];
      DecodeOne(z, i, separator, d.units, q, d.next);
      if z[i] < 0x80 {
        AsciiUnit(z[i]);
        psplit[q] := z[i] as bv16;
        i := i + 1;
      } else {
        var val;
        i, val := TakeContinuation(z, i + 1, First(z[i]));
        psplit[q] := Cut(val);
      }
      q := q + 1;
      assert psplit[..q] == before + [psplit[q - 1]];
    }
    AtSeparator(z, i, separator);
    psplit[q] := 0;
    if z[i] != 0 { i := i + 1; }
    r := i;
  }

  lemma NotEmpty(z: seq<bv8>, separator: bv8)
    requires Decode(z, 0, separator).Result?
    ensures 0 < |z|
  {
  }

  /** At the separator nothing more is decoded. */
  lemma AtSeparator(z: seq<bv8>, i: nat, separator: bv8)
    requires i < |z| && z[i] == separator
    ensures Decode(z, i, separator) == Result([], i)
  {
  }

  lemma AsciiUnit(b: bv8)
    requires b < 0x80
    ensures Cut(b as bv32) == b as bv16
  {
  }

  /** One unit of what is still to be decoded. */
  lemma DecodeOne(z: seq<bv8>, i: nat, separator: bv8, units: seq<bv16>, q: nat, next: nat)
    requires i < |z| && z[i] != separator && q <= |units| && Decode(z, i, separator) == Result(units[q..], next)
    ensures && q < |units|
            && DecodeUnit(z, i).Step?
            && units[q] == Cut(DecodeUnit(z, i).val)
            && i < DecodeUnit(z, i).next < |z|
    ensures Decode(z, DecodeUnit(z, i).next, separator) == Result(units[q + 1..], next)
    ensures units[..q + 1] == units[..q] + [units[q]]
    ensures z[i] < 0x80 ==> DecodeUnit(z, i) == Step(z[i] as bv32, i + 1)
    ensures !(z[i] < 0x80) ==> DecodeUnit(z, i) == Continue(z, i + 1, First(z[i]), 0, 0)
  {
    hide Cut, DecodeUnit;
    var step := DecodeUnit(z, i);
    var tail := Decode(z, step.next, separator);
    var rest := units[q..];
    assert rest == [Cut(step.val)] + tail.units;
    assert |rest| > 0 && rest[0] == Cut(step.val) && rest[1..] == tail.units && units[q + 1..] == rest[1..];
    UnitIs(z, i);
  }

  lemma UnitIs(z: seq<bv8>, i: nat)
    requires i < |z|
    ensures z[i] < 0x80 ==> DecodeUnit(z, i) == Step(z[i] as bv32, i + 1)
    ensures !(z[i] < 0x80) ==> DecodeUnit(z, i) == Continue(z, i + 1, First(z[i]), 0, 0)
  {
  }

  method TakeContinuation(z: seq<bv8>, start: nat, first: bv8) returns (i: nat, val: bv32)
    requires start <= |z| && Continue(z, start, first, 0, 0).Step?
    ensures Continue(z, start, first, 0, 0) == Step(val, i)
  {
    var lead, shift := first, 0;
    i, val := start, 0;
    while More(lead)
      invariant start <= i <= |z| && 0 <= shift
      invariant Continue(z, i, lead, val, shift) == Continue(z, start, first, 0, 0)
      decreases |z| - i
    {
      val := Append6(val, z[i]);
      i := i + 1;
      lead, shift := Shifted(lead), shift + 5;
    }
    val := Finish(val, lead, shift);
  }

  // ---- there and back ----

  lemma TwoBytes(wc: bv16)
    requires 0x80 <= wc < 0x800
    ensures var e := EncodeUnit(wc);
            && e[0] >= 0x80 && More(First(e[0])) && !More(Shifted(First(e[0])))
            && Cut(Finish(Append6(0, e[1]), Shifted(First(e[0])), 5)) == wc
  {
  }

  lemma LeadBits(wc: bv16)
    ensures var b := Narrow((wc >> 12) | 0xE0);
            && b >= 0x80 && More(First(b)) && More(Shifted(First(b))) && !More(Shifted(Shifted(First(b))))
            && (Shifted(Shifted(First(b))) as bv32) << 9 == ((wc >> 12) as bv32) << 12
  {
  }

  lemma NextBits(x: bv16)
    ensures (Narrow((x & 0x3F) | 0x80) ^ 0x80) as bv32 == (x & 0x3F) as bv32
  {
  }

  function Packed(middle: bv32, low: bv32, high: bv32): bv32 {
    ((middle << 6) | low) | high
  }

  lemma BitsTogether(wc: bv16)
    ensures Cut(Packed(((wc >> 6) & 0x3F) as bv32, (wc & 0x3F) as bv32, ((wc >> 12) as bv32) << 12)) == wc
  {
  }

  lemma PackedIs(b1: bv8, b2: bv8, lead: bv8)
    ensures Finish(Append6(Append6(0, b1), b2), lead, 10)
            == Packed((b1 ^ 0x80) as bv32, (b2 ^ 0x80) as bv32, (lead as bv32) << 9)
  {
  }

  lemma ThreeBytes(wc: bv16)
    requires 0x800 <= wc
    ensures var e := EncodeUnit(wc);
            && |e| == 3
            && e[0] >= 0x80
            && More(First(e[0]))
            && More(Shifted(First(e[0])))
            && !More(Shifted(Shifted(First(e[0]))))
            && Cut(Finish(Append6(Append6(0, e[1]), e[2]), Shifted(Shifted(First(e[0]))), 10)) == wc
  {
    hide Narrow, Cut, Packed, More, First, Shifted, Append6, Finish, EncodeUnit;
    EncodeThree(wc);
    LeadBits(wc);
    NextBits(wc >> 6);
    NextBits(wc);
    BitsTogether(wc);
    var e := EncodeUnit(wc);
    PackedIs(e[1], e[2], Shifted(Shifted(First(e[0]))));
  }

  /** One unit survives encoding and decoding. */
  lemma UnitRoundTrip(z: seq<bv8>, i: nat, wc: bv16)
    requires i + |EncodeUnit(wc)| <= |z| && z[i..i + |EncodeUnit(wc)|] == EncodeUnit(wc)
    ensures DecodeUnit(z, i).Step? && Cut(DecodeUnit(z, i).val) == wc && DecodeUnit(z, i).next == i + |EncodeUnit(wc)|
    ensures wc < 0x80 ==> z[i] == Narrow(wc)
    ensures wc >= 0x80 ==> z[i] >= 0x80
  {
    hide EncodeUnit, Cut, Narrow, More, First, Shifted, Append6, Finish;
    var e := EncodeUnit(wc);
    forall k | 0 <= k < |e| ensures z[i + k] == e[k] { assert z[i..i + |e|][k] == z[i + k]; }
    UnitSize(wc);
    if wc < 0x80 {
      OneByte(wc);
    } else if wc < 0x800 {
      TwoBytes(wc);
      assert Continue(z, i + 1, First(z[i]), 0, 0) == Continue(z, i + 2, Shifted(First(z[i])), Append6(0, z[i + 1]), 5);
    } else {
      ThreeBytes(wc);
      var l1 := Shifted(First(z[i]));
      assert Continue(z, i + 1, First(z[i]), 0, 0) == Continue(z, i + 2, l1, Append6(0, z[i + 1]), 5);
      assert Continue(z, i + 2, l1, Append6(0, z[i + 1]), 5)
          == Continue(z, i + 3, Shifted(l1), Append6(Append6(0, z[i + 1]), z[i + 2]), 10);
    }
  }

  lemma EncodeThree(wc: bv16)
    requires 0x800 <= wc
    ensures EncodeUnit(wc) == [Narrow((wc >> 12) | 0xE0), Narrow(((wc >> 6) & 0x3F) | 0x80), Narrow((wc & 0x3F) | 0x80)]
  {
  }

  lemma UnitSize(wc: bv16)
    ensures |EncodeUnit(wc)| == if wc < 0x80 then 1 else if wc < 0x800 then 2 else 3
  {
  }

  lemma OneByte(wc: bv16)
    requires wc < 0x80
    ensures EncodeUnit(wc) == [Narrow(wc)] && Narrow(wc) < 0x80 && Cut(Narrow(wc) as bv32) == wc
  {
  }

  /** A character of four bytes, which has more than 16 bits, is cut down to its lower 16. */
  lemma FourBytes(z: seq<bv8>, i: nat)
    requires i + 4 <= |z| && 0xF0 <= z[i] <= 0xF7 && Tail(z[i + 1]) && Tail(z[i + 2]) && Tail(z[i + 3])
    ensures DecodeUnit(z, i).Step? && DecodeUnit(z, i).next == i + 4
    ensures Cut(DecodeUnit(z, i).val) ==
            ((z[i + 1] & 0x0F) as bv16 << 12) | ((z[i + 2] & 0x3F) as bv16 << 6) | (z[i + 3] & 0x3F) as bv16
  {
    hide Cut, More, First, Shifted, Append6, Finish;
    var l1 := Shifted(First(z[i]));
    var v1 := Append6(0, z[i + 1]);
    var v2 := Append6(v1, z[i + 2]);
    FourLead(z[i]);
    assert Continue(z, i + 1, First(z[i]), 0, 0) == Continue(z, i + 2, l1, v1, 5);
    assert Continue(z, i + 2, l1, v1, 5) == Continue(z, i + 3, Shifted(l1), v2, 10);
    assert Continue(z, i + 3, Shifted(l1), v2, 10)
        == Continue(z, i + 4, Shifted(Shifted(l1)), Append6(v2, z[i + 3]), 15);
    FourPacked(z[i], z[i + 1], z[i + 2], z[i + 3]);
  }

  lemma FourLead(a: bv8)
    requires 0xF0 <= a <= 0xF7
    ensures a >= 0x80 && More(First(a)) && More(Shifted(First(a))) && More(Shifted(Shifted(First(a))))
    ensures !More(Shifted(Shifted(Shifted(First(a)))))
  {
  }

  lemma FourPacked(a: bv8, b: bv8, c: bv8, e: bv8)
    requires 0xF0 <= a <= 0xF7 && Tail(b) && Tail(c) && Tail(e)
    ensures Cut(Finish(Append6(Append6(Append6(0, b), c), e), Shifted(Shifted(Shifted(First(a)))), 15)) ==
            ((b & 0x0F) as bv16 << 12) | ((c & 0x3F) as bv16 << 6) | (e & 0x3F) as bv16
  {
  }

  lemma EncodeFront(c: bv16, s: seq<bv16>)
    ensures Encode([c] + s) == EncodeUnit(c) + Encode(s)
  {
    hide EncodeUnit, Encode;
    EncodeNone();
    var t, n := [c] + s, |s|;
    if n == 0 {
      EncodePush([c], 0);
      assert [c][..0] == [] && [c][..1] == t;
    } else {
      EncodeFront(c, s[..n - 1]);
      EncodePush(t, n);
      EncodePush(s, n - 1);
      assert t[..n + 1] == t && t[..n] == [c] + s[..n - 1] && s[..n] == s;
    }
  }

  lemma EncodeNone()
    ensures Encode([]) == []
  {
  }

  /** What was encoded decodes to itself, whatever stands behind the separator. */
  lemma {:induction false} RoundTrip(z: seq<bv8>, i: nat, s: seq<bv16>, separator: bv8)
    requires separator < 0x80 && forall k :: 0 <= k < |s| ==> s[k] != separator as bv16
    requires i + |Encode(s)| < |z| && z[i..i + |Encode(s)|] == Encode(s) && z[i + |Encode(s)|] == separator
    ensures Decode(z, i, separator) == Result(s, i + |Encode(s)|)
    decreases |s|
  {
    hide EncodeUnit, DecodeUnit, Cut, Encode;
    if s == [] {
      EncodeNone();
    } else {
      var e := EncodeUnit(s[0]);
      assert [s[0]] + s[1..] == s;
      EncodeFront(s[0], s[1..]);
      assert z[i..i + |e|] == z[i..i + |Encode(s)|][..|e|];
      assert z[i + |e|..i + |Encode(s)|] == z[i..i + |Encode(s)|][|e|..];
      UnitRoundTrip(z, i, s[0]);
      NotTheSeparator(s[0], separator, z[i]);
      RoundTrip(z, i + |e|, s[1..], separator);
    }
  }

  lemma NotTheSeparator(wc: bv16, separator: bv8, b: bv8)
    requires separator < 0x80 && wc != separator as bv16
    requires wc < 0x80 ==> b == Narrow(wc)
    requires wc >= 0x80 ==> b >= 0x80
    ensures b != separator
  {
  }
}
