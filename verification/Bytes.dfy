/** Byte sequences, overwriting a stretch of them, and the little-endian
    loads and stores of source/bit_ops.h.  A byte is an integer in 0..255;
    masks and shifts are written as the division and remainder they equal. */
module Bytes {

  type byte = x: int | 0 <= x < 0x100

  /** The sequence s with the elements from `at` on overwritten by d. */
  function Splice<T>(s: seq<T>, at: nat, d: seq<T>): (r: seq<T>)
    requires at + |d| <= |s|
    ensures |r| == |s|
    ensures r[at..at + |d|] == d
    ensures forall i :: 0 <= i < |s| && !(at <= i < at + |d|) ==> r[i] == s[i]
    ensures forall i :: at <= i < at + |d| ==> r[i] == d[i - at]
  {
    s[..at] + d + s[at + |d|..]
  }

  function Zeros(n: nat): (r: seq<byte>)
    ensures |r| == n && forall i :: 0 <= i < n ==> r[i] == 0
  {
    seq(n, i => 0)
  }

  /** A stretch outside the overwritten one is unchanged. */
  lemma SpliceSlice<T>(s: seq<T>, at: nat, d: seq<T>, lo: nat, hi: nat)
    requires at + |d| <= |s| && lo <= hi <= |s|
    requires hi <= at || at + |d| <= lo
    ensures Splice(s, at, d)[lo..hi] == s[lo..hi]
  {
  }

  /** Overwriting inside a stretch is overwriting that stretch. */
  lemma SpliceWithin<T>(s: seq<T>, at: nat, d: seq<T>, lo: nat, hi: nat)
    requires lo <= at && at + |d| <= hi <= |s|
    ensures Splice(s, at, d)[lo..hi] == Splice(s[lo..hi], at - lo, d)
  {
  }

  /** Two adjoining overwrites are one. */
  lemma SpliceJoin<T>(s: seq<T>, at: nat, d: seq<T>, e: seq<T>)
    requires at + |d| + |e| <= |s|
    ensures Splice(Splice(s, at, d), at + |d|, e) == Splice(s, at, d + e)
  {
  }

  lemma SpliceNothing(s: seq<byte>, at: nat)
    requires at <= |s|
    ensures Splice(s, at, Zeros(0)) == s
  {
  }

  /** Overwriting part of what was just written. */
  lemma SpliceInside<T>(s: seq<T>, at: nat, d: seq<T>, off: nat, e: seq<T>)
    requires at + |d| <= |s| && off + |e| <= |d|
    ensures Splice(Splice(s, at, d), at + off, e) == Splice(s, at, Splice(d, off, e))
  {
  }

  function ToU16(item: seq<byte>, offset: nat): (v: nat)
    requires offset + 2 <= |item|
    ensures v < 0x1_0000
  {
    item[offset] as int + item[offset + 1] as int * 0x100
  }

  function ToU32(item: seq<byte>, offset: nat): (v: nat)
    requires offset + 4 <= |item|
    ensures v < 0x1_0000_0000
  {
    item[offset] as int + item[offset + 1] as int * 0x100
    + item[offset + 2] as int * 0x1_0000 + item[offset + 3] as int * 0x100_0000
  }

  /** The n low bytes of value, lowest first. */
  function LittleEndian(value: nat, n: nat): (b: seq<byte>)
    ensures |b| == n
  {
    if n == 0 then [] else [value % 0x100] + LittleEndian(value / 0x100, n - 1)
  }

  method U16ToU8Array(item: array<byte>, offset: nat, value: nat)
    requires offset + 2 <= item.Length
    modifies item
    ensures item[..] == Splice(old(item[..]), offset, LittleEndian(value, 2))
  {
    item[offset] := value % 0x100;
    item[offset + 1] := value / 0x100 % 0x100;
    assert LittleEndian(value, 2) == [value % 0x100, value / 0x100 % 0x100];
  }

  method U32ToU8Array(item: array<byte>, offset: nat, value: nat)
    requires offset + 4 <= item.Length
    modifies item
    ensures item[..] == Splice(old(item[..]), offset, LittleEndian(value, 4))
  {
    var v1 := value / 0x100;
    var v2 := v1 / 0x100;
    var v3 := v2 / 0x100;
    item[offset], item[offset + 1] := value % 0x100, v1 % 0x100;
    item[offset + 2], item[offset + 3] := v2 % 0x100, v3 % 0x100;
    assert LittleEndian(value, 4) == [value % 0x100, v1 % 0x100, v2 % 0x100, v3 % 0x100] by {
      FourBytes(value);
    }
  }

  lemma FourBytes(value: nat)
    ensures LittleEndian(value, 4)
         == [value % 0x100, value / 0x100 % 0x100, value / 0x100 / 0x100 % 0x100, value / 0x100 / 0x100 / 0x100 % 0x100]
  {
    var v1 := value / 0x100;
    var v2 := v1 / 0x100;
    assert LittleEndian(v2, 2) == [v2 % 0x100, v2 / 0x100 % 0x100];
    assert LittleEndian(v1, 3) == [v1 % 0x100] + LittleEndian(v2, 2);
  }

  lemma TwoBytes(value: nat)
    ensures LittleEndian(value, 2) == [value % 0x100, value / 0x100 % 0x100]
  {
  }

  /** Loads undo stores, up to the truncation of the stored value. */
  lemma {:induction false} LoadStore16(item: seq<byte>, offset: nat, value: nat)
    requires offset + 2 <= |item|
    ensures ToU16(Splice(item, offset, LittleEndian(value, 2)), offset) == value % 0x1_0000
  {
    hide LittleEndian;
    TwoBytes(value);
    var d := LittleEndian(value, 2);
    var s := Splice(item, offset, d);
    assert s[offset] == d[0] && s[offset + 1] == d[1];
  }

  lemma LoadStore32(item: seq<byte>, offset: nat, value: nat)
    requires offset + 4 <= |item|
    ensures ToU32(Splice(item, offset, LittleEndian(value, 4)), offset) == value % 0x1_0000_0000
  {
    hide LittleEndian;
    FourBytes(value);
    Recombined(value);
    var d, s := LittleEndian(value, 4), Splice(item, offset, LittleEndian(value, 4));
    assert s[offset] == d[0] && s[offset + 1] == d[1] && s[offset + 2] == d[2] && s[offset + 3] == d[3];
  }

  lemma Recombined(v: nat)
    ensures var v1 := v / 0x100;
            var v2 := v1 / 0x100;
            v % 0x100 + v1 % 0x100 * 0x100 + v2 % 0x100 * 0x1_0000 + v2 / 0x100 % 0x100 * 0x100_0000
            == v % 0x1_0000_0000
  {
    var v1, v2, v3 := v / 0x100, v / 0x100 / 0x100, v / 0x100 / 0x100 / 0x100;
    var low := v % 0x100 + v1 % 0x100 * 0x100 + v2 % 0x100 * 0x1_0000 + v3 % 0x100 * 0x100_0000;
    assert v == v3 / 0x100 * 0x1_0000_0000 + low;
    Remainder(v3 / 0x100, low);
  }

  lemma Remainder(q: nat, r: nat)
    requires r < 0x1_0000_0000
    ensures (q * 0x1_0000_0000 + r) % 0x1_0000_0000 == r
  {
  }
}
