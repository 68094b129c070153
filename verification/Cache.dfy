/** The sector cache of source/cache.c: a write-back page cache over a disc that
    replaces the page whose last access is oldest. */
module SectorCache {
  import opened Bytes
  import opened Pages
  import opened PageOrder
  import opened Recency

  /** The disc behind the cache.  Unless it is reliable, any transfer may fail: a failed
      read leaves the buffer as it was, a failed write scrambles the sectors it names. */
  class Disc {
    var content: seq<byte>
    const bytesPerSector: nat
    const reliable: bool

    constructor (content: seq<byte>, bytesPerSector: nat, reliable: bool)
      ensures this.content == content && this.bytesPerSector == bytesPerSector && this.reliable == reliable
    {
      this.content, this.bytesPerSector, this.reliable := content, bytesPerSector, reliable;
    }

    method ReadSectors(sector: nat, numSectors: nat, buffer: seq<byte>) returns (ok: bool, filled: seq<byte>)
      requires ByteOffset(sector, bytesPerSector) + ByteOffset(numSectors, bytesPerSector) <= |content|
      requires ByteOffset(numSectors, bytesPerSector) <= |buffer|
      ensures reliable ==> ok
      ensures ok ==>
                filled
                == Splice(buffer, 0, content[ByteOffset(sector, bytesPerSector)..
                                             ByteOffset(sector, bytesPerSector) + ByteOffset(numSectors, bytesPerSector)])
      ensures !ok ==> filled == buffer
    {
      var from, n := ByteOffset(sector, bytesPerSector), ByteOffset(numSectors, bytesPerSector);
      filled := buffer;
      var fails: bool := *;
      ok := reliable || !fails;
      if ok {
        filled := Splice(buffer, 0, content[from..from + n]);
      }
    }

    method WriteSectors(sector: nat, numSectors: nat, buffer: seq<byte>) returns (ok: bool, ghost junk: seq<byte>)
      requires ByteOffset(sector, bytesPerSector) + ByteOffset(numSectors, bytesPerSector) <= |content|
      requires ByteOffset(numSectors, bytesPerSector) <= |buffer|
      modifies this
      ensures reliable ==> ok
      ensures ok ==>
                content
                == Splice(old(content), ByteOffset(sector, bytesPerSector),
                          buffer[..ByteOffset(numSectors, bytesPerSector)])
      ensures |junk| == ByteOffset(numSectors, bytesPerSector)
      ensures !ok ==> content == Splice(old(content), ByteOffset(sector, bytesPerSector), junk)
    {
      var at, n := ByteOffset(sector, bytesPerSector), ByteOffset(numSectors, bytesPerSector);
      var fails: bool := *;
      ok := reliable || !fails;
      assert |Zeros(n)| == n;
      var left: seq<byte> :| |left| == n;
      junk := left;
      content := Splice(content, at, if ok then buffer[..n] else left);
    }
  }

  class Cache {
    const disc: Disc
    const endOfPartition: nat
    const numberOfPages: nat
    const sectorsPerPage: nat
    const bytesPerSector: nat
    const cacheEntries: array<CacheEntry>
    var accessCounter: nat

    /** The flat array of bytes the cache stands for. */
    ghost var view: seq<byte>
    /** The used entries, latest access first. */
    ghost var order: seq<nat>

    ghost function Repr(): set<object> {
      {this, cacheEntries, disc}
    }

    function Sh(): Shape {
      Shape(sectorsPerPage, bytesPerSector, endOfPartition)
    }

    /** Where a sector starts, in bytes. */
    function Addr(sector: nat): nat {
      ByteOffset(sector, bytesPerSector)
    }

    ghost predicate Valid()
      reads Repr()
    {
      && numberOfPages == cacheEntries.Length >= 2 && sectorsPerPage >= 8
      && disc.bytesPerSector == bytesPerSector
      && Coherent(Sh(), cacheEntries[..], disc.content, view)
      && Ordered(cacheEntries[..], order, accessCounter)
    }

    /** The first sectors of the resident pages, most recently accessed first. */
    ghost function Resident(): seq<nat>
      requires Valid()
      reads Repr()
    {
      Recent(cacheEntries[..], order, accessCounter)
    }

    /** Residency after touching the pages of m sectors, one sector after the other. */
    ghost predicate Touched(before: seq<nat>, sector: nat, m: nat)
      requires Valid()
      reads Repr()
    {
      Sh().Valid() && Resident() == TouchAll(before, PageBases(Sh(), sector, m), numberOfPages)
    }

    constructor (numberOfPages: nat, sectorsPerPage: nat, disc: Disc, endOfPartition: nat, bytesPerSector: nat)
      requires bytesPerSector > 0 && bytesPerSector == disc.bytesPerSector && endOfPartition < CACHE_FREE
      requires |disc.content| == ByteOffset(endOfPartition, bytesPerSector)
      ensures Valid() && view == disc.content && this.disc == disc && this.bytesPerSector == bytesPerSector
      ensures this.endOfPartition == endOfPartition
      ensures this.numberOfPages == (if numberOfPages < 2 then 2 else numberOfPages)
      ensures this.sectorsPerPage == (if sectorsPerPage < 8 then 8 else sectorsPerPage)
      ensures fresh(cacheEntries) && Resident() == []
    {
      hide ByteOffset;
      var pages := if numberOfPages < 2 then 2 else numberOfPages;
      var spp := if sectorsPerPage < 8 then 8 else sectorsPerPage;
      this.numberOfPages, this.sectorsPerPage := pages, spp;
      this.disc, this.endOfPartition, this.bytesPerSector := disc, endOfPartition, bytesPerSector;
      accessCounter := 0;
      view, order := disc.content, [];
      var free := CacheEntry(CACHE_FREE, 0, 0, false, Zeros(ByteOffset(spp, bytesPerSector)));
      cacheEntries := new CacheEntry[pages](_ => free);
      new;
      forall s | 0 <= s < endOfPartition ensures SectorEq(Sh(), disc.content, view, s) {
        OffsetMono(s, s + 1, bytesPerSector);
        OffsetMono(s + 1, endOfPartition, bytesPerSector);
      }
    }

    method AccessTime() returns (t: nat)
      modifies this`accessCounter
      ensures t == accessCounter == old(accessCounter) + 1
    {
      accessCounter := accessCounter + 1;
      t := accessCounter;
    }

    /** Writes page i back if it is dirty. */
    method WriteBack(i: nat) returns (ok: bool)
      requires Valid() && i < cacheEntries.Length && cacheEntries[i].dirty
      modifies cacheEntries, disc
      ensures Valid() && view == old(view) && Resident() == old(Resident())
      ensures disc.reliable ==> ok
      ensures ok ==> cacheEntries[..] == old(cacheEntries[..])[i := old(cacheEntries[i]).(dirty := false)]
      ensures !ok ==> cacheEntries[..] == old(cacheEntries[..])
    {
      hide ByteOffset, Splice, Coherent, Ordered, Recent;
      ghost var es, d := cacheEntries[..], disc.content;
      var e := cacheEntries[i];
      assert e == es[i];
      DirtyEntry(Sh(), es, d, view, i);
      ghost var junk;
      ok, junk := disc.WriteSectors(e.sector, e.count, e.cache);
      if ok {
        WrittenBack(Sh(), es, d, view, i, disc.content);
        cacheEntries[i] := e.(dirty := false);
        assert cacheEntries[..] == es[i := e.(dirty := false)];
        OrderIgnores(es, cacheEntries[..], order, accessCounter);
      } else {
        assert cacheEntries[..] == es;
        Scrambled(Sh(), es, d, view, i, junk);
      }
    }

    /** The entry that holds `sector`, read in first if no entry does. */
    method GetPage(sector: nat) returns (ok: bool, page: nat)
      requires Valid() && sector < endOfPartition
      modifies Repr()
      ensures Valid() && view == old(view)
      ensures disc.reliable ==> ok
      ensures ok ==> page < cacheEntries.Length && cacheEntries[page].Holds(sector)
      ensures ok ==> Resident() == Touch(old(Resident()), PageBase(Sh(), sector), numberOfPages)
      ensures !ok ==> Resident() == old(Resident())
    {
      hide ByteOffset, Ordered, Recent;
      ghost var es := cacheEntries[..];
      TimesBounded(es, order, accessCounter);
      var foundFree, oldUsed, oldAccess := false, 0, accessCounter + 1;
      var i := 0;
      while i < numberOfPages
        invariant 0 <= i <= numberOfPages
        invariant cacheEntries[..] == es && accessCounter == old(accessCounter)
        invariant forall j :: 0 <= j < i ==> !es[j].Holds(sector)
        invariant 0 < i ==> oldUsed < i && oldAccess == es[oldUsed].lastAccess
        invariant i == 0 ==> !foundFree && oldAccess == accessCounter + 1
        invariant foundFree ==> 0 < i && es[oldUsed].Free()
        invariant !foundFree ==> forall j :: 0 <= j < i ==> !es[j].Free() && oldAccess <= es[j].lastAccess
      {
        assert cacheEntries[i] == es[i];
        if cacheEntries[i].sector <= sector < cacheEntries[i].sector + cacheEntries[i].count {
          TouchPage(i, sector);
          return true, i;
        }
        if !foundFree && (cacheEntries[i].Free() || cacheEntries[i].lastAccess < oldAccess) {
          if cacheEntries[i].Free() { foundFree := true; }
          oldUsed, oldAccess := i, cacheEntries[i].lastAccess;
        }
        i := i + 1;
      }
      if !foundFree && cacheEntries[oldUsed].dirty {
        ok := WriteBack(oldUsed);
        if !ok { return false, 0; }
      }
      ok := LoadPage(oldUsed, sector);
      page := oldUsed;
    }

    /** A hit: only the access time changes. */
    method TouchPage(i: nat, ghost sector: nat)
      requires Valid() && i < cacheEntries.Length && cacheEntries[i].Holds(sector) && sector < endOfPartition
      modifies this, cacheEntries
      ensures Valid() && view == old(view) && cacheEntries[i].Holds(sector)
      ensures Resident() == Touch(old(Resident()), PageBase(Sh(), sector), numberOfPages)
    {
      hide ByteOffset;
      ghost var es := cacheEntries[..];
      HoldsIffBase(Sh(), es[i], sector);
      ghost var order' := OrderHit(es, order, accessCounter, i);
      var t := AccessTime();
      cacheEntries[i] := cacheEntries[i].(lastAccess := t);
      order := order';
      assert cacheEntries[..] == es[i := es[i].(lastAccess := t)];
      Retimed(Sh(), es, disc.content, view, i, t);
    }

    /** A miss: the victim, free or least recently accessed and clean, takes the page of `sector`. */
    method LoadPage(i: nat, sector: nat) returns (ok: bool)
      requires Valid() && i < cacheEntries.Length && !cacheEntries[i].dirty && sector < endOfPartition
      requires forall j :: 0 <= j < cacheEntries.Length ==> !cacheEntries[j].Holds(sector)
      requires cacheEntries[i].Free() || forall j :: 0 <= j < cacheEntries.Length ==>
                 !cacheEntries[j].Free() && cacheEntries[i].lastAccess <= cacheEntries[j].lastAccess
      modifies this, cacheEntries
      ensures Valid() && view == old(view)
      ensures disc.reliable ==> ok
      ensures ok ==> cacheEntries[i].Holds(sector)
      ensures ok ==> Resident() == Touch(old(Resident()), PageBase(Sh(), sector), numberOfPages)
      ensures !ok ==> Resident() == old(Resident())
    {
      hide ByteOffset, Ordered, Recent;
      ghost var es := cacheEntries[..];
      var first := sector / sectorsPerPage * sectorsPerPage;
      assert first == PageBase(Sh(), sector);
      var nextPage := first + sectorsPerPage;
      if nextPage > endOfPartition { nextPage := endOfPartition; }
      var count := nextPage - first;
      var t := accessCounter + 1;
      ghost var blank := es[i].(sector := first, count := count, lastAccess := t);
      PageBaseOfBase(Sh(), sector);
      assert EntryOk(Sh(), es[i]);
      assert EntryOk(Sh(), blank);
      PageFits(Sh(), blank);
      var filled;
      ok, filled := disc.ReadSectors(first, count, cacheEntries[i].cache);
      if !ok {
        cacheEntries[i] := cacheEntries[i].(cache := filled);
        assert cacheEntries[..] == es;
        return;
      }
      t := AccessTime();
      cacheEntries[i] := cacheEntries[i].(sector := first, count := count, lastAccess := t, cache := filled);
      ghost var e := blank.(cache := filled);
      assert cacheEntries[..] == es[i := e];
      NotResident(Sh(), es, sector);
      Replaced(Sh(), es, disc.content, view, i, e);
      if es[i].Free() {
        order := OrderFill(es, order, t - 1, i, e);
      } else {
        order := OrderEvict(es, order, t - 1, i, e);
      }
      HoldsIffBase(Sh(), e, sector);
    }

    method ReadSectors(sector: nat, numSectors: nat) returns (ok: bool, buffer: seq<byte>)
      requires Valid() && sector + numSectors <= endOfPartition
      modifies Repr()
      ensures Valid() && view == old(view)
      ensures disc.reliable ==> ok
      ensures ok ==>
                && Addr(sector) + Addr(numSectors) <= |view|
                && buffer == view[Addr(sector)..Addr(sector) + Addr(numSectors)]
      ensures ok ==> Touched(old(Resident()), sector, numSectors)
      ensures exists m: nat :: m <= numSectors && Touched(old(Resident()), sector, m)
    {
      hide ByteOffset, Coherent, Ordered, Recent, Touched, TouchAll, PageBases;
      ghost var base := Addr(sector);
      NoneTouched(sector);
      var next: nat, left: nat := sector, numSectors;
      buffer := [];
      ViewSize();
      OffsetMono(sector, endOfPartition, bytesPerSector);
      while left > 0
        invariant Valid() && view == old(view)
        invariant next + left == sector + numSectors
        invariant base <= Addr(next) <= |view|
        invariant buffer == view[base..Addr(next)]
        invariant sector <= next && Touched(old(Resident()), sector, next - sector)
      {
        ghost var mid := Resident();
        TouchedIs(old(Resident()), sector, next - sector);
        var got, n, some := ReadInPage(next, left);
        if !got {
          AsTouched(old(Resident()), sector, next - sector);
          return false, buffer;
        }
        TouchedOn(old(Resident()), mid, sector, next - sector, n);
        OffsetAdd(next, n, bytesPerSector);
        Joined(view, base, Addr(next), Addr(next) + Addr(n));
        buffer := buffer + some;
        next, left := next + n, left - n;
      }
      OffsetAdd(sector, numSectors, bytesPerSector);
      ok := true;
    }

    /** The sectors of one page count as one touch of it. */
    lemma InOnePage(page: nat, sector: nat, n: nat, before: seq<nat>)
      requires Valid() && page < cacheEntries.Length && cacheEntries[page].Holds(sector) && 0 < n
      requires sector + n <= cacheEntries[page].sector + cacheEntries[page].count && sector + n <= endOfPartition
      requires Sh().Valid() && Resident() == Touch(before, PageBase(Sh(), sector), numberOfPages)
      ensures Touched(before, sector, n)
    {
      hide ByteOffset, Ordered, Recent, TouchAll, Touch;
      assert EntryOk(Sh(), cacheEntries[..][page]);
      BasesInPage(Sh(), cacheEntries[page], sector, n);
      TouchSame(before, PageBases(Sh(), sector, n), PageBase(Sh(), sector), numberOfPages);
    }

    lemma TouchedIs(before: seq<nat>, sector: nat, m: nat)
      requires Valid() && Touched(before, sector, m)
      ensures Sh().Valid() && Resident() == TouchAll(before, PageBases(Sh(), sector, m), numberOfPages)
    {
    }

    lemma AsTouched(before: seq<nat>, sector: nat, m: nat)
      requires Valid() && Sh().Valid() && Resident() == TouchAll(before, PageBases(Sh(), sector, m), numberOfPages)
      ensures Touched(before, sector, m)
    {
    }

    lemma Advance(next: nat, left: nat, n: nat)
      requires n <= left
      ensures Addr(next + n) == Addr(next) + Addr(n) && Addr(left) == Addr(left - n) + Addr(n)
    {
      hide ByteOffset;
      OffsetAdd(next, n, bytesPerSector);
      OffsetAdd(left - n, n, bytesPerSector);
    }

    /** Pages touched in two stretches of sectors one behind the other. */
    lemma TouchedOn(before: seq<nat>, mid: seq<nat>, sector: nat, m: nat, n: nat)
      requires Valid() && Sh().Valid() && mid == TouchAll(before, PageBases(Sh(), sector, m), numberOfPages)
      requires Touched(mid, sector + m, n)
      ensures Touched(before, sector, m + n)
    {
      hide ByteOffset, Ordered, Recent, Coherent, TouchAll, PageBases;
      BasesJoin(Sh(), sector, m, n);
      TouchAllJoin(before, PageBases(Sh(), sector, m), PageBases(Sh(), sector + m, n), numberOfPages);
    }

    lemma NoneTouched(sector: nat)
      requires Valid()
      ensures Touched(Resident(), sector, 0)
    {
    }

    lemma ViewSize()
      requires Valid()
      ensures |view| == Addr(endOfPartition) && Sh().Valid()
    {
      hide ByteOffset;
    }

    /** One round of the reading loop: as many of the sectors as one page holds. */
    method ReadInPage(sector: nat, numSectors: nat) returns (ok: bool, n: nat, some: seq<byte>)
      requires Valid() && 0 < numSectors && sector + numSectors <= endOfPartition
      modifies Repr()
      ensures Valid() && view == old(view)
      ensures disc.reliable ==> ok
      ensures ok ==>
                && 0 < n <= numSectors && Addr(sector) + Addr(n) <= |view|
                && some == view[Addr(sector)..Addr(sector) + Addr(n)]
      ensures if ok then Touched(old(Resident()), sector, n) else Resident() == old(Resident())
    {
      hide ByteOffset, Coherent, Ordered, Recent, Touched, TouchAll, PageBases;
      var page;
      n, some := 0, [];
      ok, page := GetPage(sector);
      if !ok { return; }
      var e := cacheEntries[page];
      var sec := sector - e.sector;
      n := e.count - sec;
      if n > numSectors { n := numSectors; }
      PageRead(Sh(), cacheEntries[..], disc.content, view, page, sector, 0, Addr(n), n);
      ViewSize();
      InOnePage(page, sector, n, old(Resident()));
      some := e.cache[Addr(sec)..Addr(sec) + Addr(n)];
    }

    method ReadPartialSector(sector: nat, offset: nat, size: nat) returns (ok: bool, buffer: seq<byte>)
      requires Valid() && sector < endOfPartition
      modifies Repr()
      ensures Valid() && view == old(view)
      ensures disc.reliable ==> (ok <==> offset + size <= bytesPerSector)
      ensures ok ==>
                && offset + size <= bytesPerSector && Addr(sector) + offset + size <= |view|
                && buffer == view[Addr(sector) + offset..Addr(sector) + offset + size]
      ensures if ok then Touched(old(Resident()), sector, 1) else Resident() == old(Resident())
    {
      hide ByteOffset, Coherent, Ordered, Recent, Touched;
      buffer := [];
      if offset + size > bytesPerSector { return false, buffer; }
      var page;
      ok, page := GetPage(sector);
      if !ok { return; }
      var e := cacheEntries[page];
      var at := Addr(sector - e.sector) + offset;
      OffsetMono(0, 1, bytesPerSector);
      PageRead(Sh(), cacheEntries[..], disc.content, view, page, sector, offset, size, 1);
      ViewSize();
      InOnePage(page, sector, 1, old(Resident()));
      buffer := e.cache[at..at + size];
    }

    /** num_bytes other than 1, 2 and 4 are refused after the bytes were fetched. */
    method ReadLittleEndianValue(sector: nat, offset: nat, numBytes: nat) returns (ok: bool, value: nat)
      requires Valid() && sector < endOfPartition && numBytes <= 4
      modifies Repr()
      ensures Valid() && view == old(view)
      ensures disc.reliable ==> (ok <==> offset + numBytes <= bytesPerSector && numBytes in {1, 2, 4})
      ensures ok ==> var at := Addr(sector) + offset;
                     && numBytes in {1, 2, 4} && at + numBytes <= |view|
                     && value == (if numBytes == 1 then view[at] as int
                                  else if numBytes == 2 then ToU16(view, at) else ToU32(view, at))
      ensures ok || (disc.reliable && offset + numBytes <= bytesPerSector) ==> Touched(old(Resident()), sector, 1)
      ensures offset + numBytes > bytesPerSector ==> Resident() == old(Resident())
    {
      hide ByteOffset, Splice, Coherent, Ordered, Recent, Touched;
      var buf;
      value := 0;
      ok, buf := ReadPartialSector(sector, offset, numBytes);
      if !ok { return; }
      match numBytes {
        case 1 => value := buf[0];
        case 2 => value := ToU16(buf, 0);
        case 4 => value := ToU32(buf, 0);
        case _ => ok := false;
      }
    }

    /** Overwrites bytes of the page in memory and marks it dirty: memcpy into the entry. */
    method Store(page: nat, at: nat, d: seq<byte>)
      requires Valid() && page < cacheEntries.Length && !cacheEntries[page].Free()
      requires EntryShows(Sh(), cacheEntries[page], view) && at + |d| <= Addr(cacheEntries[page].count)
      modifies this`view, cacheEntries
      ensures Valid() && Addr(cacheEntries[page].sector) + at + |d| <= |view|
      ensures view == Splice(old(view), Addr(old(cacheEntries[page].sector)) + at, d)
      ensures cacheEntries[page].sector == old(cacheEntries[page].sector)
      ensures cacheEntries[page].count == old(cacheEntries[page].count)
      ensures EntryShows(Sh(), cacheEntries[page], view)
      ensures Resident() == old(Resident())
    {
      hide ByteOffset, Splice, Coherent, Ordered, Recent;
      ghost var es := cacheEntries[..];
      var e := cacheEntries[page];
      Overwritten(Sh(), es, disc.content, view, page, at, d);
      cacheEntries[page] := e.(cache := Splice(e.cache, at, d), dirty := true);
      view := Splice(view, Addr(e.sector) + at, d);
      assert cacheEntries[..] == es[page := e.(cache := Splice(e.cache, at, d), dirty := true)];
      OrderIgnores(es, cacheEntries[..], order, accessCounter);
    }

    method WritePartialSector(buffer: seq<byte>, sector: nat, offset: nat) returns (ok: bool)
      requires Valid() && sector < endOfPartition
      modifies Repr()
      ensures Valid()
      ensures disc.reliable ==> (ok <==> offset + |buffer| <= bytesPerSector)
      ensures ok ==>
                && offset + |buffer| <= bytesPerSector && Addr(sector) + offset + |buffer| <= |old(view)|
                && view == Splice(old(view), Addr(sector) + offset, buffer)
      ensures !ok ==> view == old(view)
      ensures if ok then Touched(old(Resident()), sector, 1) else Resident() == old(Resident())
    {
      hide ByteOffset, Splice, Coherent, Ordered, Recent, Touched;
      if offset + |buffer| > bytesPerSector { return false; }
      var page;
      ok, page := GetPage(sector);
      if !ok { return; }
      var at := Addr(sector - cacheEntries[page].sector) + offset;
      OffsetMono(0, 1, bytesPerSector);
      PageRead(Sh(), cacheEntries[..], disc.content, view, page, sector, offset, |buffer|, 1);
      Store(page, at, buffer);
      ViewSize();
      InOnePage(page, sector, 1, old(Resident()));
    }

    method WriteLittleEndianValue(value: nat, sector: nat, offset: nat, size: nat) returns (ok: bool)
      requires Valid() && sector < endOfPartition
      modifies Repr()
      ensures Valid()
      ensures disc.reliable ==> (ok <==> offset + size <= bytesPerSector && size in {1, 2, 4})
      ensures ok ==>
                && Addr(sector) + offset + size <= |old(view)|
                && view == Splice(old(view), Addr(sector) + offset, LittleEndian(value, size))
      ensures !ok ==> view == old(view)
      ensures if ok then Touched(old(Resident()), sector, 1) else Resident() == old(Resident())
    {
      hide ByteOffset, Splice, Coherent, Ordered, Recent, Touched;
      var buf := new byte[4](_ => 0);
      match size {
        case 1 => buf[0] := value % 0x100; assert LittleEndian(value, 1) == [value % 0x100];
        case 2 => U16ToU8Array(buf, 0, value);
        case 4 => U32ToU8Array(buf, 0, value);
        case _ => return false;
      }
      assert buf[..size] == LittleEndian(value, size);
      ok := WritePartialSector(buf[..size], sector, offset);
    }

    /** Zeroes the sector, then writes the buffer into it. */
    method EraseWritePartialSector(buffer: seq<byte>, sector: nat, offset: nat) returns (ok: bool)
      requires Valid() && sector < endOfPartition
      modifies Repr()
      ensures Valid()
      ensures disc.reliable ==> (ok <==> offset + |buffer| <= bytesPerSector)
      ensures ok ==>
                && Addr(sector) + bytesPerSector <= |old(view)| && offset + |buffer| <= bytesPerSector
                && view == Splice(old(view), Addr(sector), Splice(Zeros(bytesPerSector), offset, buffer))
      ensures !ok ==> view == old(view)
      ensures if ok then Touched(old(Resident()), sector, 1) else Resident() == old(Resident())
    {
      hide ByteOffset, Splice, Coherent, Ordered, Recent, Touched;
      if offset + |buffer| > bytesPerSector { return false; }
      var page;
      ok, page := GetPage(sector);
      if !ok { return; }
      var at := Addr(sector - cacheEntries[page].sector);
      OffsetMono(0, 1, bytesPerSector);
      PageRead(Sh(), cacheEntries[..], disc.content, view, page, sector, 0, bytesPerSector, 1);
      ZeroAndStore(page, at, sector, offset, buffer);
      ViewSize();
      InOnePage(page, sector, 1, old(Resident()));
    }

    /** Zeroes the bytes of a sector in its page, then stores the buffer among them. */
    method ZeroAndStore(page: nat, at: nat, ghost sector: nat, offset: nat, buffer: seq<byte>)
      requires && Valid()
               && page < cacheEntries.Length
               && !cacheEntries[page].Free()
               && offset + |buffer| <= bytesPerSector
      requires EntryShows(Sh(), cacheEntries[page], view) && at + bytesPerSector <= Addr(cacheEntries[page].count)
      requires Addr(cacheEntries[page].sector) + at == Addr(sector)
      modifies this`view, cacheEntries
      ensures Valid() && Addr(sector) + bytesPerSector <= |old(view)|
      ensures view == Splice(old(view), Addr(sector), Splice(Zeros(bytesPerSector), offset, buffer))
      ensures Resident() == old(Resident()) && cacheEntries[page].sector == old(cacheEntries[page].sector)
      ensures cacheEntries[page].count == old(cacheEntries[page].count)
    {
      hide ByteOffset, Splice, Coherent, Ordered, Recent, Valid;
      Store(page, at, Zeros(bytesPerSector));
      Store(page, at + offset, buffer);
      SpliceInside(old(view), Addr(sector), Zeros(bytesPerSector), offset, buffer);
    }

    method WriteSectors(sector: nat, numSectors: nat, buffer: seq<byte>) returns (ok: bool)
      requires Valid() && sector + numSectors <= endOfPartition && |buffer| == Addr(numSectors)
      modifies Repr()
      ensures Valid()
      ensures disc.reliable ==> ok
      ensures Addr(sector) + |buffer| <= |old(view)|
      ensures ok ==> view == Splice(old(view), Addr(sector), buffer)
      ensures !ok ==> exists n :: 0 <= n <= |buffer| && view == Splice(old(view), Addr(sector), buffer[..n])
      ensures ok ==> Touched(old(Resident()), sector, numSectors)
      ensures exists m: nat :: m <= numSectors && Touched(old(Resident()), sector, m)
    {
      hide ByteOffset, Splice, Coherent, Ordered, Recent, Touched, TouchAll, PageBases;
      ghost var base := Addr(sector);
      NoneTouched(sector);
      var next: nat, left: nat := sector, numSectors;
      var done: nat := 0;
      ViewSize();
      OffsetAdd(sector, numSectors, bytesPerSector);
      OffsetMono(sector + numSectors, endOfPartition, bytesPerSector);
      OffsetMono(0, 0, bytesPerSector);
      while left > 0
        invariant Valid() && |view| == |old(view)|
        invariant next + left == sector + numSectors
        invariant done + Addr(left) == |buffer| && base + done == Addr(next)
        invariant done <= |buffer|
        invariant view == Splice(old(view), base, buffer[..done])
        invariant sector <= next && Touched(old(Resident()), sector, next - sector)
      {
        ghost var mid := Resident();
        TouchedIs(old(Resident()), sector, next - sector);
        var got, n := WriteInPage(next, left, buffer[done..]);
        if !got {
          AsTouched(old(Resident()), sector, next - sector);
          return false;
        }
        TouchedOn(old(Resident()), mid, sector, next - sector, n);
        Advance(next, left, n);
        SpliceJoin(old(view), base, buffer[..done], buffer[done..][..Addr(n)]);
        assert buffer[..done] + buffer[done..][..Addr(n)] == buffer[..done + Addr(n)];
        next, left, done := next + n, left - n, done + Addr(n);
      }
      assert buffer[..done] == buffer;
      ok := true;
    }

    /** One round of the writing loop: as many of the sectors as one page holds. */
    method WriteInPage(sector: nat, numSectors: nat, src: seq<byte>) returns (ok: bool, n: nat)
      requires Valid() && 0 < numSectors && sector + numSectors <= endOfPartition
      requires |src| == Addr(numSectors)
      modifies Repr()
      ensures Valid()
      ensures disc.reliable ==> ok
      ensures ok ==>
                && 0 < n <= numSectors && 0 <= Addr(n) <= |src|
                && Addr(sector) + Addr(n) <= |old(view)|
                && view == Splice(old(view), Addr(sector), src[..Addr(n)])
      ensures !ok ==> view == old(view)
      ensures if ok then Touched(old(Resident()), sector, n) else Resident() == old(Resident())
    {
      hide ByteOffset, Splice, Coherent, Ordered, Recent, Touched, TouchAll, PageBases;
      n := 0;
      var page;
      ok, page := GetPage(sector);
      if !ok { return; }
      var sec := sector - cacheEntries[page].sector;
      n := cacheEntries[page].count - sec;
      if n > numSectors { n := numSectors; }
      OffsetMono(n, numSectors, bytesPerSector);
      PageRead(Sh(), cacheEntries[..], disc.content, view, page, sector, 0, Addr(n), n);
      Store(page, Addr(sec), src[..Addr(n)]);
      ViewSize();
      InOnePage(page, sector, n, old(Resident()));
    }

    /** Writes every dirty page back; after success the disc itself holds the view. */
    method Flush() returns (ok: bool)
      requires Valid()
      modifies cacheEntries, disc
      ensures Valid() && view == old(view) && Resident() == old(Resident())
      ensures disc.reliable ==> ok
      ensures ok ==> disc.content == view
      ensures ok ==> forall i :: 0 <= i < cacheEntries.Length ==> !cacheEntries[i].dirty
    {
      hide ByteOffset;
      var i := 0;
      while i < numberOfPages
        invariant 0 <= i <= numberOfPages
        invariant Valid() && view == old(view) && Resident() == old(Resident())
        invariant forall j :: 0 <= j < i ==> !cacheEntries[j].dirty
      {
        if cacheEntries[i].dirty {
          ghost var before := cacheEntries[..];
          var written := WriteBack(i);
          if !written { return false; }
          assert forall j :: 0 <= j < numberOfPages && j != i ==> cacheEntries[..][j] == before[j];
        }
        i := i + 1;
      }
      CleanMeansSynced(Sh(), cacheEntries[..], disc.content, view);
      ok := true;
    }

    /** Empties the cache.  What a failed flush could not write is lost: the view falls
        back to what the disc holds. */
    method Invalidate() returns (ghost flushed: bool)
      requires Valid()
      modifies Repr()
      ensures Valid() && view == disc.content && Resident() == []
      ensures disc.reliable ==> flushed
      ensures flushed ==> view == old(view)
    {
      hide ByteOffset;
      flushed := Flush();
      view := disc.content;
      var i := 0;
      while i < numberOfPages
        invariant 0 <= i <= numberOfPages
        invariant forall j :: 0 <= j < numberOfPages ==> |cacheEntries[j].cache| == Addr(sectorsPerPage)
        invariant forall j :: 0 <= j < i ==>
                    && cacheEntries[j].Free() && cacheEntries[j].count == 0
                    && !cacheEntries[j].dirty && cacheEntries[j].lastAccess == 0
        modifies cacheEntries
      {
        cacheEntries[i] := cacheEntries[i].(sector := CACHE_FREE, lastAccess := 0, count := 0, dirty := false);
        i := i + 1;
      }
      order := [];
      forall s | 0 <= s < endOfPartition ensures SectorEq(Sh(), disc.content, view, s) {
        OffsetMono(s, s + 1, bytesPerSector);
        OffsetMono(s + 1, endOfPartition, bytesPerSector);
      }
    }
  }
}
