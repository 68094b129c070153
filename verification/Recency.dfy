/** Least-recently-used residency as a list of pages, most recent first. */
module Recency {

  function Without(r: seq<nat>, p: nat): (w: seq<nat>)
    ensures |w| <= |r|
    ensures p !in w
    ensures forall q :: q in w <==> q in r && q != p
  {
    if r == [] then []
    else if r[0] == p then Without(r[1..], p)
    else [r[0]] + Without(r[1..], p)
  }

  function Take(r: seq<nat>, n: nat): seq<nat> {
    if |r| <= n then r else r[..n]
  }

  /** Move page p to the front; the list never holds more than n pages. */
  function Touch(r: seq<nat>, p: nat, n: nat): seq<nat>
    requires n > 0
  {
    [p] + Take(Without(r, p), n - 1)
  }

  /** The list after touching the pages of ts in turn, starting from no pages. */
  function Run(ts: seq<nat>, n: nat): seq<nat>
    requires n > 0
  {
    if ts == [] then [] else Touch(Run(ts[..|ts| - 1], n), ts[|ts| - 1], n)
  }

  /** The list after touching the pages of ts in turn. */
  function TouchAll(r: seq<nat>, ts: seq<nat>, n: nat): seq<nat>
    requires n > 0
  {
    if ts == [] then r else Touch(TouchAll(r, ts[..|ts| - 1], n), ts[|ts| - 1], n)
  }

  lemma {:induction false} TouchAllJoin(r: seq<nat>, a: seq<nat>, b: seq<nat>, n: nat)
    requires n > 0
    ensures TouchAll(r, a + b, n) == TouchAll(TouchAll(r, a, n), b, n)
    decreases |b|
  {
    hide Touch;
    if b == [] {
      assert a + b == a;
    } else {
      var k := |b| - 1;
      TouchAllJoin(r, a, b[..k], n);
      assert (a + b)[..|a + b| - 1] == a + b[..k];
    }
  }

  /** Touches go on where a run from the start has come to. */
  lemma {:induction false} RunOn(us: seq<nat>, ts: seq<nat>, n: nat)
    requires n > 0
    ensures TouchAll(Run(us, n), ts, n) == Run(us + ts, n)
  {
    hide Touch;
    if ts == [] {
      assert us + ts == us;
    } else {
      var k := |ts| - 1;
      RunOn(us, ts[..k], n);
      assert (us + ts)[..|us + ts| - 1] == us + ts[..k];
    }
  }

  /** Touching the page in front again changes nothing. */
  lemma TouchTwice(r: seq<nat>, p: nat, n: nat)
    requires n > 0
    ensures Touch(Touch(r, p, n), p, n) == Touch(r, p, n)
  {
    var x := Take(Without(r, p), n - 1);
    assert p !in x;
    WithoutAbsent(x, p);
    assert ([p] + x)[1..] == x;
  }

  lemma {:induction false} TouchSame(r: seq<nat>, ts: seq<nat>, p: nat, n: nat)
    requires n > 0 && ts != [] && forall i :: 0 <= i < |ts| ==> ts[i] == p
    ensures TouchAll(r, ts, n) == Touch(r, p, n)
  {
    hide Touch;
    if |ts| > 1 {
      TouchSame(r, ts[..|ts| - 1], p, n);
      TouchTwice(r, p, n);
    } else {
      assert ts[..0] == [];
    }
  }

  /** The same list without the bound. */
  function Unbounded(ts: seq<nat>): seq<nat> {
    if ts == [] then [] else
      var p := ts[|ts| - 1];
      [p] + Without(Unbounded(ts[..|ts| - 1]), p)
  }

  ghost predicate Distinct(r: seq<nat>) {
    forall i, j :: 0 <= i < j < |r| ==> r[i] != r[j]
  }

  lemma {:induction false} WithoutSplit(r: seq<nat>, k: nat)
    requires k < |r| && Distinct(r)
    ensures Without(r, r[k]) == r[..k] + r[k + 1..]
  {
    if k == 0 {
      WithoutAbsent(r[1..], r[0]);
    } else {
      assert r[1..][k - 1] == r[k];
      WithoutSplit(r[1..], k - 1);
      assert r[1..][..k - 1] == r[1..k];
      assert r[..k] == [r[0]] + r[1..k];
    }
  }

  lemma WithoutAbsent(r: seq<nat>, p: nat)
    requires p !in r
    ensures Without(r, p) == r
  {
    if r != [] {
      assert r == [r[0]] + r[1..];
    }
  }

  lemma WithoutConcat(a: seq<nat>, b: seq<nat>, p: nat)
    ensures Without(a + b, p) == Without(a, p) + Without(b, p)
  {
    if a == [] {
      assert a + b == b;
    } else {
      assert (a + b)[1..] == a[1..] + b;
      WithoutConcat(a[1..], b, p);
    }
  }

  lemma WithoutTake(r: seq<nat>, p: nat, n: nat)
    requires n > 0 && Distinct(r)
    ensures Take(Without(Take(r, n), p), n - 1) == Take(Without(r, p), n - 1)
  {
    if p in r {
      var k :| 0 <= k < |r| && r[k] == p;
      WithoutSplit(r, k);
      if |r| > n {
        if k < n {
          WithoutSplit(r[..n], k);
          assert (r[..k] + r[k + 1..])[..n - 1] == r[..n][..k] + r[..n][k + 1..];
        } else {
          WithoutAbsent(r[..n], p);
          assert (r[..k] + r[k + 1..])[..n - 1] == r[..n][..n - 1];
        }
      }
    } else {
      WithoutAbsent(r, p);
      WithoutAbsent(Take(r, n), p);
    }
  }

  lemma UnboundedDistinct(ts: seq<nat>)
    ensures Distinct(Unbounded(ts))
    ensures forall p :: p in Unbounded(ts) <==> p in ts
  {
    if ts != [] {
      var init, p := ts[..|ts| - 1], ts[|ts| - 1];
      assert ts == init + [p];
      UnboundedDistinct(init);
      var u := Unbounded(init);
      if p in u {
        var k :| 0 <= k < |u| && u[k] == p;
        WithoutSplit(u, k);
      } else {
        WithoutAbsent(u, p);
      }
    }
  }

  /** The bounded list is a prefix of the unbounded one. */
  lemma RunIsPrefix(ts: seq<nat>, n: nat)
    requires n > 0
    ensures Run(ts, n) == Take(Unbounded(ts), n)
  {
    if ts != [] {
      var init, p := ts[..|ts| - 1], ts[|ts| - 1];
      RunIsPrefix(init, n);
      UnboundedDistinct(init);
      WithoutTake(Unbounded(init), p, n);
    }
  }

  ghost predicate LastTouch(ts: seq<nat>, t: nat) {
    t < |ts| && ts[t] !in ts[t + 1..]
  }

  ghost function Elements(r: seq<nat>): set<nat> {
    set p | p in r
  }

  /** A page sits in the unbounded list behind exactly the pages touched since its own last touch. */
  lemma {:induction false} DepthInList(ts: seq<nat>, t: nat) returns (k: nat)
    requires LastTouch(ts, t)
    ensures k < |Unbounded(ts)| && Unbounded(ts)[k] == ts[t]
    ensures Elements(Unbounded(ts)[..k]) == Elements(ts[t + 1..])
  {
    var init, p := ts[..|ts| - 1], ts[|ts| - 1];
    if t == |ts| - 1 {
      k := 0;
    } else {
      assert ts[t + 1..] == init[t + 1..] + [p];
      assert init[t] != p;
      var k0 := DepthInList(init, t);
      var u := Unbounded(init);
      assert u == u[..k0] + u[k0..];
      WithoutConcat(u[..k0], u[k0..], p);
      var ahead := [p] + Without(u[..k0], p);
      k := |ahead|;
      assert Unbounded(ts) == ahead + Without(u[k0..], p);
      assert Unbounded(ts)[..k] == ahead;
      assert Elements(ahead) == Elements(u[..k0]) + {p};
      assert Elements(ts[t + 1..]) == Elements(init[t + 1..]) + {p};
    }
  }

  lemma DistinctCount(r: seq<nat>)
    requires Distinct(r)
    ensures |Elements(r)| == |r|
  {
    if r != [] {
      var init := r[..|r| - 1];
      DistinctCount(init);
      assert r == init + [r[|r| - 1]];
      assert Elements(r) == Elements(init) + {r[|r| - 1]};
    }
  }

  /** LRU residency: after any run of touches with n pages of room, the page last
      touched at step t is resident exactly when fewer than n distinct pages were
      touched since. */
  lemma ResidentIffRecent(ts: seq<nat>, t: nat, n: nat)
    requires n > 0 && LastTouch(ts, t)
    ensures ts[t] in Run(ts, n) <==> |Elements(ts[t + 1..])| < n
  {
    var k := DepthInList(ts, t);
    var u := Unbounded(ts);
    UnboundedDistinct(ts);
    RunIsPrefix(ts, n);
    assert Distinct(u[..k]);
    DistinctCount(u[..k]);
    if ts[t] in Take(u, n) {
      var j :| 0 <= j < |Take(u, n)| && Take(u, n)[j] == ts[t];
      assert u[j] == u[k];
      assert j == k;
    }
    assert k < n ==> Take(u, n)[k] == ts[t];
  }

  lemma SubsetCount<T>(a: set<T>, b: set<T>)
    requires a <= b
    ensures |a| <= |b|
  {
    assert b == a + (b - a);
  }
}
