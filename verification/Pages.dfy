/** What the page table of the cache means: a page, where it lies, and when a
    table of pages over a disc represents a given flat array of bytes. */
module Pages {
  import opened Bytes

  /** The sector number of a page that holds nothing (CACHE_FREE, UINT_MAX). */
  const CACHE_FREE: nat := 0xFFFF_FFFF

  /** sectorsPerPage, bytesPerSector and endOfPartition of the CACHE struct. */
  datatype Shape = Shape(spp: nat, bps: nat, end: nat) {
    ghost predicate Valid() {
      spp > 0 && bps > 0 && end < CACHE_FREE
    }
  }

  datatype CacheEntry = CacheEntry(sector: nat, count: nat, lastAccess: nat, dirty: bool, cache: seq<byte>) {
    predicate Free() { sector == CACHE_FREE }
    predicate Holds(s: nat) { sector <= s < sector + count }
  }

  /** Where a sector starts, in bytes.  Proofs work with its monotony and additivity
      (OffsetMono, OffsetAdd) and hide the multiplication. */
  function ByteOffset(sector: nat, bytesPerSector: nat): nat {
    sector * bytesPerSector
  }

  function At(sh: Shape, sector: nat): nat {
    ByteOffset(sector, sh.bps)
  }

  function PageBase(sh: Shape, s: nat): (p: nat)
    requires sh.Valid()
    ensures p <= s < p + sh.spp
  {
    DivBounds(s, sh.spp);
    s / sh.spp * sh.spp
  }

  /** Pages start at multiples of their size. */
  lemma PageAligned(sh: Shape, s: nat)
    requires sh.Valid()
    ensures PageBase(sh, s) % sh.spp == 0
  {
    var p := PageBase(sh, s);
    DivBounds(s, sh.spp);
    DivBounds(p, sh.spp);
    MultiplesApart(p / sh.spp, s / sh.spp, sh.spp);
    MultiplesApart(s / sh.spp, p / sh.spp, sh.spp);
  }

  function PageCount(sh: Shape, base: nat): nat
    requires base < sh.end
  {
    if base + sh.spp > sh.end then sh.end - base else sh.spp
  }

  /** One entry: free, or a whole aligned page cut at the end of the partition. */
  ghost predicate EntryOk(sh: Shape, e: CacheEntry)
    requires sh.Valid()
  {
    && |e.cache| == At(sh, sh.spp)
    && (e.Free() ==> e.count == 0 && !e.dirty)
    && (!e.Free() ==> e.sector < sh.end && e.sector == PageBase(sh, e.sector) && e.count == PageCount(sh, e.sector))
  }

  ghost predicate TableOk(sh: Shape, es: seq<CacheEntry>)
    requires sh.Valid()
  {
    && (forall i :: 0 <= i < |es| ==> EntryOk(sh, es[i]))
    && (forall i, j :: 0 <= i < j < |es| && !es[i].Free() ==> es[i].sector != es[j].sector)
  }

  ghost predicate Dirty(es: seq<CacheEntry>, s: nat) {
    exists i :: 0 <= i < |es| && es[i].dirty && es[i].Holds(s)
  }

  ghost predicate EntryShows(sh: Shape, e: CacheEntry, view: seq<byte>) {
    !e.Free() ==>
      && At(sh, e.count) <= |e.cache|
      && At(sh, e.sector) + At(sh, e.count) == At(sh, e.sector + e.count) <= |view|
      && e.cache[..At(sh, e.count)] == view[At(sh, e.sector)..At(sh, e.sector + e.count)]
  }

  ghost predicate SectorEq(sh: Shape, a: seq<byte>, b: seq<byte>, s: nat) {
    && At(sh, s) <= At(sh, s + 1) <= |a| == |b|
    && a[At(sh, s)..At(sh, s + 1)] == b[At(sh, s)..At(sh, s + 1)]
  }

  /** The pages over the disc stand for the bytes of view: every resident page shows
      its stretch of the view, and off the dirty pages the disc already equals it. */
  ghost predicate Coherent(sh: Shape, es: seq<CacheEntry>, disc: seq<byte>, view: seq<byte>) {
    && sh.Valid()
    && |view| == |disc| == At(sh, sh.end)
    && TableOk(sh, es)
    && (forall i :: 0 <= i < |es| ==> EntryShows(sh, es[i], view))
    && (forall s :: 0 <= s < sh.end && !Dirty(es, s) ==> SectorEq(sh, disc, view, s))
  }

  // ---- arithmetic ----

  lemma MulMono(a: nat, b: nat, m: nat)
    ensures a <= b ==> a * m <= b * m
    ensures 0 <= a * m && a * m + m == (a + 1) * m
  {
    if a <= b {
      assert b * m - a * m == (b - a) * m;
    }
  }

  lemma OffsetMono(a: nat, b: nat, m: nat)
    ensures a <= b ==> ByteOffset(a, m) <= ByteOffset(b, m)
    ensures ByteOffset(a, m) + m == ByteOffset(a + 1, m)
    ensures ByteOffset(0, m) == 0
  {
    MulMono(a, b, m);
  }

  lemma OffsetAdd(a: nat, b: nat, m: nat)
    ensures ByteOffset(a, m) + ByteOffset(b, m) == ByteOffset(a + b, m)
  {
  }

  lemma OffsetIs(x: nat, m: nat)
    ensures ByteOffset(x, m) == x * m
  {
  }

  lemma DivBounds(s: nat, m: nat)
    requires m > 0
    ensures 0 <= s / m
    ensures 0 <= s / m * m <= s < s / m * m + m
    ensures s == s / m * m + s % m
  {
    assert s == s / m * m + s % m;
  }

  /** Multiples of m less than m apart are equal. */
  lemma MultiplesApart(a: nat, b: nat, m: nat)
    requires m > 0
    ensures a < b ==> a * m + m <= b * m
  {
    if a < b {
      MulMono(a + 1, b, m);
      MulMono(a, b, m);
    }
  }

  lemma ModUnique(x: nat, q: nat, m: nat, r: nat)
    requires x == q * m + r && r < m
    ensures x % m == r
  {
    var p := x / m;
    assert x == p * m + x % m;
    assert p == q by {
      MultiplesApart(p, q, m);
      MultiplesApart(q, p, m);
    }
  }

  /** Distinct aligned pages do not overlap. */
  lemma PagesApart(sh: Shape, p: nat, q: nat)
    requires sh.Valid() && p == PageBase(sh, p) && q == PageBase(sh, q) && p < q
    ensures p + sh.spp <= q
  {
    if p / sh.spp >= q / sh.spp {
      MulMono(q / sh.spp, p / sh.spp, sh.spp);
    }
    MultiplesApart(p / sh.spp, q / sh.spp, sh.spp);
  }

  lemma PageBaseOfBase(sh: Shape, s: nat)
    requires sh.Valid()
    ensures PageBase(sh, PageBase(sh, s)) == PageBase(sh, s)
  {
    var p, q := PageBase(sh, s) / sh.spp, s / sh.spp;
    MultiplesApart(p, q, sh.spp);
    MultiplesApart(q, p, sh.spp);
  }

  /** A page holds a sector exactly when it is that sector's page. */
  lemma HoldsIffBase(sh: Shape, e: CacheEntry, s: nat)
    requires sh.Valid() && EntryOk(sh, e) && s < sh.end
    ensures e.Holds(s) <==> e.sector == PageBase(sh, s)
  {
    if e.Holds(s) {
      PageBaseOfBase(sh, s);
      if e.sector < PageBase(sh, s) {
        PagesApart(sh, e.sector, PageBase(sh, s));
      } else if PageBase(sh, s) < e.sector {
        PagesApart(sh, PageBase(sh, s), e.sector);
      }
    }
  }

  /** The pages of the sectors s .. s + n - 1, sector by sector. */
  function PageBases(sh: Shape, s: nat, n: nat): (b: seq<nat>)
    requires sh.Valid()
    ensures |b| == n && forall i :: 0 <= i < n ==> b[i] == PageBase(sh, s + i)
  {
    if n == 0 then [] else PageBases(sh, s, n - 1) + [PageBase(sh, s + n - 1)]
  }

  lemma {:induction false} BasesJoin(sh: Shape, s: nat, m: nat, n: nat)
    requires sh.Valid()
    ensures PageBases(sh, s, m) + PageBases(sh, s + m, n) == PageBases(sh, s, m + n)
  {
    hide PageBase;
  }

  /** Sectors of one entry have one page. */
  lemma {:induction false} BasesInPage(sh: Shape, e: CacheEntry, s: nat, n: nat)
    requires sh.Valid() && EntryOk(sh, e) && e.Holds(s) && s + n <= e.sector + e.count && s + n <= sh.end
    ensures forall i :: 0 <= i < n ==> PageBases(sh, s, n)[i] == PageBase(sh, s)
  {
    hide PageBase;
    HoldsIffBase(sh, e, s);
    forall i | 0 <= i < n ensures PageBases(sh, s, n)[i] == PageBase(sh, s) {
      HoldsIffBase(sh, e, s + i);
    }
  }

  /** A sector behind the end of the partition is in no page, so a page is loaded for it; and then
      the table is in order exactly if that page was not there already. */
  lemma PastTheEnd(sh: Shape, es: seq<CacheEntry>, i: nat, e: CacheEntry)
    requires sh.Valid() && TableOk(sh, es) && i < |es| && EntryOk(sh, e) && e.sector == PageBase(sh, sh.end)
    ensures forall j :: 0 <= j < |es| ==> !es[j].Holds(sh.end)
    ensures TableOk(sh, es[i := e]) <==> forall j :: 0 <= j < |es| && j != i ==> es[j].sector != e.sector
  {
    hide PageBase, ByteOffset;
    var t := es[i := e];
    forall j | 0 <= j < |es| ensures !es[j].Holds(sh.end) { assert EntryOk(sh, es[j]); }
    if j :| 0 <= j < |es| && j != i && es[j].sector == e.sector {
      assert t[i].sector == t[j].sector;
    } else {
      forall j | 0 <= j < |t| ensures EntryOk(sh, t[j]) {}
    }
  }

  // ---- what each step keeps ----

  /** The arithmetic of a page: its sectors lie on the disc and fit the buffer. */
  lemma PageFits(sh: Shape, e: CacheEntry)
    requires sh.Valid() && EntryOk(sh, e) && !e.Free()
    ensures e.count > 0
    ensures At(sh, e.count) <= |e.cache|
    ensures At(sh, e.sector) + At(sh, e.count) == At(sh, e.sector + e.count) <= At(sh, sh.end)
  {
    hide ByteOffset;
    OffsetMono(e.count, sh.spp, sh.bps);
    OffsetMono(e.sector + e.count, sh.end, sh.bps);
    OffsetAdd(e.sector, e.count, sh.bps);
  }

  lemma StillDirty(es: seq<CacheEntry>, es': seq<CacheEntry>, k: nat, s: nat)
    requires k < |es| == |es'| && forall j :: 0 <= j < |es| && j != k ==> es[j] == es'[j]
    requires es[k].dirty && es[k].Holds(s) ==> es'[k].dirty && es'[k].Holds(s)
    ensures Dirty(es, s) ==> Dirty(es', s)
  {
    if Dirty(es, s) {
      var j :| 0 <= j < |es| && es[j].dirty && es[j].Holds(s);
      assert es'[j].dirty && es'[j].Holds(s);
    }
  }

  /** A page that was written back need not be dirty any longer. */
  lemma WrittenBack(sh: Shape, es: seq<CacheEntry>, disc: seq<byte>, view: seq<byte>, i: nat, disc': seq<byte>)
    requires Coherent(sh, es, disc, view) && i < |es| && !es[i].Free()
    requires EntryShows(sh, es[i], view)
    requires disc' == Splice(disc, At(sh, es[i].sector), es[i].cache[..At(sh, es[i].count)])
    ensures Coherent(sh, es[i := es[i].(dirty := false)], disc', view)
  {
    hide ByteOffset;
    var es' := es[i := es[i].(dirty := false)];
    forall s | 0 <= s < sh.end && !Dirty(es', s)
      ensures SectorEq(sh, disc', view, s)
    {
      if es[i].Holds(s) {
        SectorInside(sh, disc', view, es[i].sector, es[i].sector + es[i].count, s);
      } else {
        SectorOutside(sh, disc, es[i].sector, es[i].count, At(sh, es[i].sector), es[i].cache[..At(sh, es[i].count)], s);
        StillDirty(es, es', i, s);
      }
    }
    forall j | 0 <= j < |es'| ensures EntryShows(sh, es'[j], view) {
      assert EntryShows(sh, es[j], view);
    }
  }

  /** Coherence does not depend on access times. */
  lemma Retimed(sh: Shape, es: seq<CacheEntry>, disc: seq<byte>, view: seq<byte>, i: nat, t: nat)
    requires Coherent(sh, es, disc, view) && i < |es|
    ensures Coherent(sh, es[i := es[i].(lastAccess := t)], disc, view)
  {
    hide ByteOffset;
    var es' := es[i := es[i].(lastAccess := t)];
    forall s | 0 <= s < sh.end && !Dirty(es', s) ensures SectorEq(sh, disc, view, s) {
      StillDirty(es, es', i, s);
    }
    forall j | 0 <= j < |es'| ensures EntryShows(sh, es'[j], view) {
      assert EntryShows(sh, es[j], view);
    }
  }

  /** No entry holding a sector means no entry has its page. */
  lemma NotResident(sh: Shape, es: seq<CacheEntry>, s: nat)
    requires sh.Valid() && TableOk(sh, es) && s < sh.end
    requires forall j :: 0 <= j < |es| ==> !es[j].Holds(s)
    ensures forall j :: 0 <= j < |es| ==> es[j].sector != PageBase(sh, s)
  {
    forall j | 0 <= j < |es| ensures es[j].sector != PageBase(sh, s) {
      HoldsIffBase(sh, es[j], s);
    }
  }

  /** A write-back that fails scrambles only sectors that its dirty page covers. */
  lemma Scrambled(sh: Shape, es: seq<CacheEntry>, disc: seq<byte>, view: seq<byte>, i: nat, junk: seq<byte>)
    requires Coherent(sh, es, disc, view) && i < |es| && es[i].dirty
    requires EntryShows(sh, es[i], view) && |junk| == At(sh, es[i].count)
    ensures Coherent(sh, es, Splice(disc, At(sh, es[i].sector), junk), view)
  {
    hide ByteOffset;
    var e := es[i];
    var disc' := Splice(disc, At(sh, e.sector), junk);
    forall s | 0 <= s < sh.end && !Dirty(es, s)
      ensures SectorEq(sh, disc', view, s)
    {
      assert !e.Holds(s);
      assert SectorEq(sh, disc, view, s);
      SectorOutside(sh, disc, e.sector, e.count, At(sh, e.sector), junk, s);
    }
  }

  /** A clean page may be forgotten, or replaced by any page read from the disc that is not resident. */
  lemma Replaced(sh: Shape, es: seq<CacheEntry>, disc: seq<byte>, view: seq<byte>, i: nat, e: CacheEntry)
    requires Coherent(sh, es, disc, view) && i < |es| && !es[i].dirty
    requires EntryOk(sh, e) && !e.dirty
    requires forall j :: 0 <= j < |es| && j != i && !e.Free() ==> es[j].sector != e.sector
    requires !e.Free() ==> EntryShows(sh, e, disc)
    ensures Coherent(sh, es[i := e], disc, view)
  {
    hide ByteOffset;
    var es' := es[i := e];
    forall s | 0 <= s < sh.end && !Dirty(es', s)
      ensures SectorEq(sh, disc, view, s)
    {
      StillDirty(es, es', i, s);
    }
    if !e.Free() {
      forall s | e.sector <= s < e.sector + e.count
        ensures SectorEq(sh, disc, view, s)
      {
        if Dirty(es, s) {
          var j :| 0 <= j < |es| && es[j].dirty && es[j].Holds(s);
          HoldsIffBase(sh, es[j], s);
          HoldsIffBase(sh, e, s);
        }
      }
      SectorsEqual(sh, disc, view, e.sector, e.sector + e.count);
    }
    forall j | 0 <= j < |es'| ensures EntryShows(sh, es'[j], view) {
      if j != i { assert EntryShows(sh, es[j], view); }
    }
  }

  /** Overwriting bytes in one resident page, which becomes dirty, overwrites the same bytes of the view. */
  lemma Overwritten(sh: Shape, es: seq<CacheEntry>, disc: seq<byte>, view: seq<byte>, i: nat, at: nat, d: seq<byte>)
    requires Coherent(sh, es, disc, view) && i < |es| && !es[i].Free()
    requires EntryShows(sh, es[i], view) && at + |d| <= At(sh, es[i].count)
    ensures Coherent(sh, es[i := es[i].(cache := Splice(es[i].cache, at, d), dirty := true)], disc,
                     Splice(view, At(sh, es[i].sector) + at, d))
  {
    hide ByteOffset, EntryOk, EntryShows, SectorEq, Splice;
    OverwrittenFits(sh, es[i], view, at, d);
    var e := es[i];
    var e' := e.(cache := Splice(e.cache, at, d), dirty := true);
    var es' := es[i := e'];
    var view' := Splice(view, At(sh, e.sector) + at, d);
    OverwrittenHere(sh, e, view, at, d);
    forall j | 0 <= j < |es'| ensures EntryOk(sh, es'[j]) && EntryShows(sh, es'[j], view') {
      if j != i {
        if es[j].Free() {
          FreeShows(sh, es[j], view, view');
        } else {
          StretchesApart(sh, es, i, j);
          OverwrittenElsewhere(sh, es[j], view, At(sh, e.sector) + at, d);
        }
      }
    }
    forall s | 0 <= s < sh.end && !Dirty(es', s)
      ensures SectorEq(sh, disc, view', s)
    {
      OverwrittenOff(sh, es, disc, view, i, at, d, es', s);
    }
  }

  lemma FreeShows(sh: Shape, e: CacheEntry, view: seq<byte>, view': seq<byte>)
    requires e.Free() && EntryShows(sh, e, view)
    ensures EntryShows(sh, e, view')
  {
  }

  /** A sector in no dirty page stays what it is on the disc. */
  lemma OverwrittenOff(sh: Shape, es: seq<CacheEntry>, disc: seq<byte>, view: seq<byte>, i: nat, at: nat,
                       d: seq<byte>, es': seq<CacheEntry>, s: nat)
    requires && Coherent(sh, es, disc, view)
             && i < |es|
             && !es[i].Free()
             && EntryShows(sh, es[i], view)
             && at + |d| <= At(sh, es[i].count)
    requires es' == es[i := es[i].(cache := Splice(es[i].cache, at, d), dirty := true)]
    requires s < sh.end && !Dirty(es', s)
    ensures At(sh, es[i].sector) + at + |d| <= |view|
    ensures SectorEq(sh, disc, Splice(view, At(sh, es[i].sector) + at, d), s)
  {
    hide ByteOffset, Splice, EntryShows;
    OverwrittenFits(sh, es[i], view, at, d);
    assert es'[i].dirty;
    StillDirty(es, es', i, s);
    SectorOutside(sh, view, es[i].sector, es[i].count, At(sh, es[i].sector) + at, d, s);
  }

  lemma OverwrittenFits(sh: Shape, e: CacheEntry, view: seq<byte>, at: nat, d: seq<byte>)
    requires sh.Valid() && EntryOk(sh, e) && |view| == At(sh, sh.end) && EntryShows(sh, e, view) && !e.Free()
    requires at + |d| <= At(sh, e.count)
    ensures At(sh, e.sector) + at + |d| <= At(sh, e.sector + e.count) <= |view| && at + |d| <= |e.cache|
  {
    hide ByteOffset;
    PageFits(sh, e);
  }

  lemma OverwrittenHere(sh: Shape, e: CacheEntry, view: seq<byte>, at: nat, d: seq<byte>)
    requires sh.Valid() && EntryOk(sh, e) && |view| == At(sh, sh.end) && EntryShows(sh, e, view) && !e.Free()
    requires at + |d| <= At(sh, e.count)
    ensures at + |d| <= |e.cache| && At(sh, e.sector) + at + |d| <= |view|
    ensures EntryShows(sh, e.(cache := Splice(e.cache, at, d), dirty := true), Splice(view, At(sh, e.sector) + at, d))
    ensures EntryOk(sh, e.(cache := Splice(e.cache, at, d), dirty := true))
  {
    hide ByteOffset;
    SpliceWithin(e.cache, at, d, 0, At(sh, e.count));
    SpliceWithin(view, At(sh, e.sector) + at, d, At(sh, e.sector), At(sh, e.sector + e.count));
  }

  lemma OverwrittenElsewhere(sh: Shape, e: CacheEntry, view: seq<byte>, at: nat, d: seq<byte>)
    requires sh.Valid() && EntryOk(sh, e) && |view| == At(sh, sh.end) && EntryShows(sh, e, view) && !e.Free()
    requires at + |d| <= |view|
    requires at + |d| <= At(sh, e.sector) || At(sh, e.sector + e.count) <= at
    ensures EntryShows(sh, e, Splice(view, at, d))
  {
    hide ByteOffset;
    SpliceSlice(view, at, d, At(sh, e.sector), At(sh, e.sector + e.count));
  }

  lemma StretchesApart(sh: Shape, es: seq<CacheEntry>, i: nat, j: nat)
    requires sh.Valid() && TableOk(sh, es) && i < |es| && j < |es| && i != j && !es[i].Free() && !es[j].Free()
    ensures At(sh, es[i].sector + es[i].count) <= At(sh, es[j].sector)
         || At(sh, es[j].sector + es[j].count) <= At(sh, es[i].sector)
  {
    hide ByteOffset;
    var a, b := es[i], es[j];
    if a.sector < b.sector {
      PagesApart(sh, a.sector, b.sector);
      OffsetMono(a.sector + a.count, b.sector, sh.bps);
    } else {
      PagesApart(sh, b.sector, a.sector);
      OffsetMono(b.sector + b.count, a.sector, sh.bps);
    }
  }

  /** When no page is dirty the disc is the view. */
  lemma CleanMeansSynced(sh: Shape, es: seq<CacheEntry>, disc: seq<byte>, view: seq<byte>)
    requires Coherent(sh, es, disc, view)
    requires forall i :: 0 <= i < |es| ==> !es[i].dirty
    ensures disc == view
  {
    hide ByteOffset;
    OffsetMono(0, sh.end, sh.bps);
    SectorsEqual(sh, disc, view, 0, sh.end);
  }

  lemma SectorsEqual(sh: Shape, a: seq<byte>, b: seq<byte>, lo: nat, hi: nat)
    requires sh.Valid() && |a| == |b| == At(sh, sh.end) && lo <= hi <= sh.end
    requires forall s :: lo <= s < hi ==> SectorEq(sh, a, b, s)
    ensures At(sh, lo) <= At(sh, hi) <= |a| && a[At(sh, lo)..At(sh, hi)] == b[At(sh, lo)..At(sh, hi)]
  {
    hide ByteOffset;
    OffsetMono(lo, hi, sh.bps);
    OffsetMono(hi, sh.end, sh.bps);
    if lo < hi {
      SectorsEqual(sh, a, b, lo, hi - 1);
      assert SectorEq(sh, a, b, hi - 1);
      Joined(a, At(sh, lo), At(sh, hi - 1), At(sh, hi));
      Joined(b, At(sh, lo), At(sh, hi - 1), At(sh, hi));
    }
  }

  lemma Joined(a: seq<byte>, lo: nat, mid: nat, hi: nat)
    requires lo <= mid <= hi <= |a|
    ensures a[lo..hi] == a[lo..mid] + a[mid..hi]
  {
  }

  /** A sector outside [lo, lo + n) is unchanged by an overwrite inside it. */
  lemma SectorOutside(sh: Shape, a: seq<byte>, lo: nat, n: nat, at: nat, d: seq<byte>, s: nat)
    requires sh.Valid() && |a| == At(sh, sh.end) && s < sh.end && !(lo <= s < lo + n)
    requires At(sh, lo) <= at && at + |d| <= At(sh, lo + n) <= |a|
    ensures SectorEq(sh, a, Splice(a, at, d), s)
  {
    hide ByteOffset;
    OffsetMono(s, s + 1, sh.bps);
    OffsetMono(s + 1, sh.end, sh.bps);
    OffsetMono(s + 1, lo, sh.bps);
    OffsetMono(lo + n, s, sh.bps);
    SpliceSlice(a, at, d, At(sh, s), At(sh, s + 1));
  }

  /** A sector of the stretch [lo, hi) after that stretch was made equal. */
  lemma SectorInside(sh: Shape, a: seq<byte>, b: seq<byte>, lo: nat, hi: nat, s: nat)
    requires sh.Valid() && |a| == |b| && lo <= s < hi
    requires At(sh, lo) <= At(sh, hi) <= |a| && a[At(sh, lo)..At(sh, hi)] == b[At(sh, lo)..At(sh, hi)]
    ensures SectorEq(sh, a, b, s)
  {
    hide ByteOffset;
    OffsetMono(lo, s, sh.bps);
    OffsetMono(s, s + 1, sh.bps);
    OffsetMono(s + 1, hi, sh.bps);
    SubSlice(a, b, At(sh, lo), At(sh, hi), At(sh, s), At(sh, s + 1));
  }

  lemma SubSlice(a: seq<byte>, b: seq<byte>, lo: nat, hi: nat, x: nat, y: nat)
    requires lo <= x <= y <= hi <= |a| && hi <= |b|
    requires a[lo..hi] == b[lo..hi]
    ensures a[x..y] == b[x..y]
  {
    forall k | x <= k < y ensures a[k] == b[k] {
      assert a[lo..hi][k - lo] == b[lo..hi][k - lo];
    }
  }

  /** Where bytes of a resident sector lie in its page, and that the page shows the view there. */
  lemma PageRead(sh: Shape, es: seq<CacheEntry>, disc: seq<byte>, view: seq<byte>, i: nat, s: nat, offset: nat,
                 size: nat, n: nat)
    requires Coherent(sh, es, disc, view) && i < |es| && s < sh.end && es[i].Holds(s)
    requires s + n <= es[i].sector + es[i].count && offset + size <= At(sh, n)
    ensures EntryShows(sh, es[i], view) && !es[i].Free()
    ensures ShownAt(es[i].cache, view, At(sh, es[i].sector), At(sh, es[i].count), At(sh, s - es[i].sector), At(sh, s),
                    offset, size)
  {
    hide ByteOffset, Coherent, EntryOk, PageBase, PageCount;
    var e := es[i];
    ResidentEntry(sh, es, disc, view, i, s);
    PageArithmetic(e.sector, e.count, s, n, offset + size, sh.bps);
    SameInside(e.cache, view, At(sh, e.sector), At(sh, e.count), At(sh, s - e.sector) + offset, size);
  }

  lemma DirtyEntry(sh: Shape, es: seq<CacheEntry>, disc: seq<byte>, view: seq<byte>, i: nat)
    requires Coherent(sh, es, disc, view) && i < |es| && es[i].dirty
    ensures EntryShows(sh, es[i], view) && !es[i].Free() && |view| == |disc|
  {
    hide ByteOffset;
    assert EntryOk(sh, es[i]);
  }

  lemma ResidentEntry(sh: Shape, es: seq<CacheEntry>, disc: seq<byte>, view: seq<byte>, i: nat, s: nat)
    requires Coherent(sh, es, disc, view) && i < |es| && s < sh.end && es[i].Holds(s)
    ensures EntryShows(sh, es[i], view) && !es[i].Free()
  {
    hide ByteOffset;
    assert EntryOk(sh, es[i]);
  }

  /** size bytes at `offset` behind `from` in the page are those behind `addr` in the view. */
  ghost predicate ShownAt(cache: seq<byte>, view: seq<byte>, base: nat, len: nat, from: nat, addr: nat, offset: nat,
                          size: nat) {
    && from + offset + size <= len <= |cache|
    && base + from == addr && base + len <= |view|
    && cache[from + offset..from + offset + size] == view[addr + offset..addr + offset + size]
  }

  lemma PageArithmetic(sector: nat, count: nat, s: nat, n: nat, size: nat, m: nat)
    requires sector <= s && s + n <= sector + count && size <= ByteOffset(n, m)
    ensures ByteOffset(s - sector, m) + size <= ByteOffset(count, m)
    ensures ByteOffset(sector, m) + ByteOffset(s - sector, m) == ByteOffset(s, m)
  {
    hide ByteOffset;
    OffsetAdd(s - sector, n, m);
    OffsetMono(s - sector + n, count, m);
    OffsetAdd(sector, s - sector, m);
  }

  lemma SameInside(a: seq<byte>, b: seq<byte>, base: nat, len: nat, at: nat, size: nat)
    requires len <= |a| && base + len <= |b| && a[..len] == b[base..base + len] && at + size <= len
    ensures a[at..at + size] == b[base + at..base + at + size]
  {
    forall k | at <= k < at + size ensures a[k] == b[base + k] {
      assert a[..len][k] == b[base..base + len][k];
    }
    Shifted(a, b, base, at, size);
  }

  lemma Shifted(a: seq<byte>, b: seq<byte>, base: nat, at: nat, size: nat)
    requires at + size <= |a| && base + at + size <= |b|
    requires forall k :: at <= k < at + size ==> a[k] == b[base + k]
    ensures a[at..at + size] == b[base + at..base + at + size]
  {
  }
}
