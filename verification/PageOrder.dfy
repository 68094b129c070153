/** The order in which the pages of a table were last accessed. */
module PageOrder {
  import opened Pages
  import opened Recency

  /** `order` lists the used entries of es, latest access first. */
  ghost predicate Ordered(es: seq<CacheEntry>, order: seq<nat>, counter: nat) {
    && (forall k :: 0 <= k < |order| ==> order[k] < |es| && !es[order[k]].Free())
    && (forall k, l :: 0 <= k < l < |order| ==> es[order[k]].lastAccess > es[order[l]].lastAccess)
    && (forall i {:trigger i in order} :: 0 <= i < |es| && !es[i].Free() ==> i in order)
    && (forall i :: 0 <= i < |es| ==> es[i].lastAccess <= counter)
  }

  ghost function Sectors(es: seq<CacheEntry>, order: seq<nat>): (r: seq<nat>)
    requires forall k :: 0 <= k < |order| ==> order[k] < |es|
    ensures |r| == |order|
    ensures forall k :: 0 <= k < |order| ==> r[k] == es[order[k]].sector
  {
    seq(|order|, k requires 0 <= k < |order| => es[order[k]].sector)
  }

  /** The resident pages, most recently accessed first. */
  ghost function Recent(es: seq<CacheEntry>, order: seq<nat>, counter: nat): seq<nat>
    requires Ordered(es, order, counter)
  {
    Sectors(es, order)
  }

  ghost predicate OneEntryPerPage(es: seq<CacheEntry>) {
    forall i, j :: 0 <= i < j < |es| && !es[i].Free() ==> es[i].sector != es[j].sector
  }

  lemma TimesBounded(es: seq<CacheEntry>, order: seq<nat>, counter: nat)
    requires Ordered(es, order, counter)
    ensures forall i :: 0 <= i < |es| ==> es[i].lastAccess <= counter
  {
  }

  lemma OrderDistinct(es: seq<CacheEntry>, order: seq<nat>, counter: nat)
    requires Ordered(es, order, counter) && OneEntryPerPage(es)
    ensures Distinct(order) && Distinct(Recent(es, order, counter))
  {
    forall k, l | 0 <= k < l < |order|
      ensures order[k] != order[l] && es[order[k]].sector != es[order[l]].sector
    {
      assert es[order[k]].lastAccess > es[order[l]].lastAccess;
    }
  }

  lemma IndexCount(order: seq<nat>, n: nat)
    requires Distinct(order) && forall k :: 0 <= k < |order| ==> order[k] < n
    ensures |order| <= n
    ensures (exists i :: 0 <= i < n && i !in order) ==> |order| < n
    ensures (forall i {:trigger i in order} :: 0 <= i < n ==> i in order) ==> |order| == n
  {
    var all := Below(n);
    DistinctCount(order);
    assert Elements(order) <= all;
    SubsetCount(Elements(order), all);
    if i :| 0 <= i < n && i !in order {
      assert i in all && i !in Elements(order);
      SubsetCount(Elements(order), all - {i});
    }
    if forall i :: 0 <= i < n ==> i in order {
      assert Elements(order) == all;
    }
  }

  ghost function Below(n: nat): (b: set<nat>)
    ensures |b| == n && forall i: nat :: i in b <==> i < n
  {
    if n == 0 then {} else Below(n - 1) + {n - 1}
  }

  /** The list of the others, when entry i = order[k] is left out. */
  lemma LeaveOut(es: seq<CacheEntry>, order: seq<nat>, counter: nat, k: nat) returns (rest: seq<nat>)
    requires Ordered(es, order, counter) && k < |order|
    ensures rest == order[..k] + order[k + 1..]
    ensures forall l :: 0 <= l < |rest| ==> rest[l] < |es| && rest[l] != order[k] && !es[rest[l]].Free()
    ensures forall l, m :: 0 <= l < m < |rest| ==> es[rest[l]].lastAccess > es[rest[m]].lastAccess
    ensures forall j {:trigger j in rest} :: 0 <= j < |es| && j != order[k] && !es[j].Free() ==> j in rest
  {
    rest := order[..k] + order[k + 1..];
    forall l | 0 <= l < |rest| ensures rest[l] < |es| && rest[l] != order[k] && !es[rest[l]].Free() {
      var a := Skip(l, k);
      assert rest[l] == order[a];
      assert es[order[a]].lastAccess != es[order[k]].lastAccess;
    }
    forall l, m | 0 <= l < m < |rest| ensures es[rest[l]].lastAccess > es[rest[m]].lastAccess {
      var a, b := Skip(l, k), Skip(m, k);
      assert rest[l] == order[a] && rest[m] == order[b];
      assert es[order[a]].lastAccess > es[order[b]].lastAccess;
    }
    forall j | 0 <= j < |es| && j != order[k] && !es[j].Free() ensures j in rest {
      assert j in order;
      var l :| 0 <= l < |order| && order[l] == j;
      assert rest[if l < k then l else l - 1] == j;
    }
  }

  function Skip(l: nat, k: nat): nat {
    if l < k then l else l + 1
  }

  /** The pages of that list are the pages without the one left out. */
  lemma LeaveOutPages(es: seq<CacheEntry>, order: seq<nat>, counter: nat, k: nat, rest: seq<nat>)
    requires Ordered(es, order, counter) && k < |order| && rest == order[..k] + order[k + 1..]
    requires OneEntryPerPage(es)
    requires forall l :: 0 <= l < |rest| ==> rest[l] < |es|
    ensures Sectors(es, rest) == Without(Recent(es, order, counter), es[order[k]].sector)
    ensures |rest| < |es|
  {
    OrderDistinct(es, order, counter);
    IndexCount(order, |es|);
    WithoutSplit(Recent(es, order, counter), k);
  }

  /** Accessing a resident page moves it to the front. */
  lemma OrderHit(es: seq<CacheEntry>, order: seq<nat>, counter: nat, i: nat) returns (order': seq<nat>)
    requires Ordered(es, order, counter) && OneEntryPerPage(es) && i < |es| && !es[i].Free()
    ensures Ordered(es[i := es[i].(lastAccess := counter + 1)], order', counter + 1)
    ensures Recent(es[i := es[i].(lastAccess := counter + 1)], order', counter + 1)
         == Touch(Recent(es, order, counter), es[i].sector, |es|)
  {
    assert i in order;
    var k :| 0 <= k < |order| && order[k] == i;
    var rest := LeaveOut(es, order, counter, k);
    LeaveOutPages(es, order, counter, k, rest);
    InFront(es, es[i := es[i].(lastAccess := counter + 1)], rest, counter, i);
    order' := [i] + rest;
  }

  /** An entry accessed just now goes in front of the list of the others. */
  lemma InFront(es: seq<CacheEntry>, es': seq<CacheEntry>, rest: seq<nat>, counter: nat, i: nat)
    requires i < |es| == |es'| && !es'[i].Free() && es'[i].lastAccess == counter + 1
    requires forall j :: 0 <= j < |es| && j != i ==> es'[j] == es[j]
    requires forall j :: 0 <= j < |es| ==> es[j].lastAccess <= counter
    requires forall k :: 0 <= k < |rest| ==> rest[k] < |es| && rest[k] != i && !es[rest[k]].Free()
    requires forall k, l :: 0 <= k < l < |rest| ==> es[rest[k]].lastAccess > es[rest[l]].lastAccess
    requires forall j {:trigger j in rest} :: 0 <= j < |es| && j != i && !es[j].Free() ==> j in rest
    ensures Ordered(es', [i] + rest, counter + 1)
    ensures Recent(es', [i] + rest, counter + 1) == [es'[i].sector] + Sectors(es, rest)
  {
    var order' := [i] + rest;
    forall k | 0 <= k < |order'| ensures order'[k] < |es'| && !es'[order'[k]].Free() {
      if k > 0 { assert order'[k] == rest[k - 1]; }
    }
    forall k, l | 0 <= k < l < |order'| ensures es'[order'[k]].lastAccess > es'[order'[l]].lastAccess {
      assert order'[l] == rest[l - 1];
      if k > 0 { assert order'[k] == rest[k - 1]; }
    }
    forall j | 0 <= j < |es'| && !es'[j].Free() ensures j in order' {
      assert j == order'[0] || j in rest;
    }
    InFrontSectors(es, es', rest, i);
  }

  lemma InFrontSectors(es: seq<CacheEntry>, es': seq<CacheEntry>, rest: seq<nat>, i: nat)
    requires i < |es| == |es'| && forall j :: 0 <= j < |es| && j != i ==> es'[j] == es[j]
    requires forall k :: 0 <= k < |rest| ==> rest[k] < |es| && rest[k] != i
    ensures forall k :: 0 <= k < |[i] + rest| ==> ([i] + rest)[k] < |es'|
    ensures Sectors(es', [i] + rest) == [es'[i].sector] + Sectors(es, rest)
  {
  }

  /** Filling a free entry puts its page in front of the others. */
  lemma OrderFill(es: seq<CacheEntry>, order: seq<nat>, counter: nat, i: nat, e: CacheEntry) returns (order': seq<nat>)
    requires Ordered(es, order, counter) && OneEntryPerPage(es) && i < |es| && es[i].Free()
    requires !e.Free() && e.lastAccess == counter + 1
    requires forall j :: 0 <= j < |es| ==> es[j].sector != e.sector
    ensures Ordered(es[i := e], order', counter + 1)
    ensures Recent(es[i := e], order', counter + 1) == Touch(Recent(es, order, counter), e.sector, |es|)
  {
    OrderDistinct(es, order, counter);
    IndexCount(order, |es|);
    assert i !in order;
    order' := [i] + order;
    InFront(es, es[i := e], order, counter, i);
    WithoutAbsent(Recent(es, order, counter), e.sector);
  }

  /** With no entry free, replacing the least recently accessed one drops the last page. */
  lemma OrderEvict(es: seq<CacheEntry>, order: seq<nat>, counter: nat, i: nat, e: CacheEntry) returns (order': seq<nat>)
    requires Ordered(es, order, counter) && OneEntryPerPage(es) && i < |es|
    requires forall j :: 0 <= j < |es| ==> !es[j].Free() && es[i].lastAccess <= es[j].lastAccess
    requires !e.Free() && e.lastAccess == counter + 1
    requires forall j :: 0 <= j < |es| ==> es[j].sector != e.sector
    ensures Ordered(es[i := e], order', counter + 1)
    ensures Recent(es[i := e], order', counter + 1) == Touch(Recent(es, order, counter), e.sector, |es|)
  {
    LeastIsLast(es, order, counter, i);
    var last := |order| - 1;
    var rest := LeaveOut(es, order, counter, last);
    LeaveOutPages(es, order, counter, last, rest);
    InFront(es, es[i := e], rest, counter, i);
    order' := [i] + rest;
    assert rest == order[..last];
    WithoutAbsent(Recent(es, order, counter), e.sector);
    assert Sectors(es, rest) == Recent(es, order, counter)[..last];
  }

  lemma LeastIsLast(es: seq<CacheEntry>, order: seq<nat>, counter: nat, i: nat)
    requires Ordered(es, order, counter) && OneEntryPerPage(es) && i < |es|
    requires forall j :: 0 <= j < |es| ==> !es[j].Free() && es[i].lastAccess <= es[j].lastAccess
    ensures |order| == |es| && order[|order| - 1] == i
  {
    OrderDistinct(es, order, counter);
    assert forall j {:trigger j in order} :: 0 <= j < |es| ==> j in order;
    IndexCount(order, |es|);
    assert i in order;
    var k :| 0 <= k < |order| && order[k] == i;
    assert forall m :: 0 <= m < |order| - 1 ==> es[order[m]].lastAccess > es[order[|order| - 1]].lastAccess;
  }

  /** Only the sector and the access time of the entries matter. */
  lemma OrderIgnores(es: seq<CacheEntry>, es': seq<CacheEntry>, order: seq<nat>, counter: nat)
    requires Ordered(es, order, counter) && |es| == |es'|
    requires forall j :: 0 <= j < |es| ==> es'[j].sector == es[j].sector && es'[j].lastAccess == es[j].lastAccess
    ensures Ordered(es', order, counter)
    ensures Recent(es', order, counter) == Recent(es, order, counter)
  {
    assert forall k :: 0 <= k < |order| ==> order[k] < |es|;
  }
}
