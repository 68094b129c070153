/** The table as a set of cluster chains.  `links` holds the links of clusters
    0 .. lastCluster and of the slot past the end; `chains` names every chain by its head. */
module Chains {
  import opened Layout
  import opened Recency

  predicate InRange(links: seq<nat>, c: nat) {
    CLUSTER_FIRST <= c && c + 1 < |links|
  }

  /** Consecutive links, without saying how the stretch ends. */
  ghost predicate IsPath(links: seq<nat>, s: seq<nat>) {
    && (forall i :: 0 <= i < |s| ==> InRange(links, s[i]))
    && (forall i :: 0 <= i < |s| - 1 ==> links[s[i]] == s[i + 1])
    && Distinct(s)
  }

  /** A path that ends with the end-of-chain mark. */
  ghost predicate IsChain(links: seq<nat>, s: seq<nat>) {
    |s| > 0 && IsPath(links, s) && links[s[|s| - 1]] == CLUSTER_EOF
  }

  ghost predicate Owned(chains: map<nat, seq<nat>>, c: nat) {
    exists h :: h in chains && c in chains[h]
  }

  ghost predicate AllChains(links: seq<nat>, chains: map<nat, seq<nat>>) {
    forall h :: h in chains ==> IsChain(links, chains[h]) && chains[h][0] == h
  }

  ghost predicate DisjointChains(chains: map<nat, seq<nat>>) {
    forall h, k, c {:trigger c in chains[h], c in chains[k]} ::
      h in chains && k in chains && c in chains[h] && c in chains[k] ==> h == k
  }

  ghost predicate AllOwned(links: seq<nat>, chains: map<nat, seq<nat>>) {
    forall c: nat {:trigger Owned(chains, c)} :: InRange(links, c) && links[c] != CLUSTER_FREE ==> Owned(chains, c)
  }

  /** The table is a set of pairwise disjoint, acyclic chains that end in EOF, and every
      cluster outside them is free. */
  ghost predicate WellFormed(links: seq<nat>, chains: map<nat, seq<nat>>) {
    4 <= |links| <= CLUSTER_EOF && AllChains(links, chains) && DisjointChains(chains) && AllOwned(links, chains)
  }

  /** The links after every cluster of s was freed. */
  function Cleared(links: seq<nat>, s: seq<nat>): (r: seq<nat>)
    ensures |r| == |links|
  {
    seq(|links|, c requires 0 <= c < |links| => if c in s then CLUSTER_FREE else links[c])
  }

  ghost function FreeSet(links: seq<nat>): (f: set<nat>)
    ensures forall c: nat :: c in f <==> InRange(links, c) && links[c] == CLUSTER_FREE
  {
    set c: nat | CLUSTER_FIRST <= c < |links| && InRange(links, c) && links[c] == CLUSTER_FREE
  }

  ghost function FreeCount(links: seq<nat>): nat {
    |FreeSet(links)|
  }

  // ---- what chains are made of ----

  lemma LinkInChain(links: seq<nat>, s: seq<nat>, i: nat)
    requires IsChain(links, s) && i < |s|
    ensures InRange(links, s[i])
    ensures links[s[i]] == if i == |s| - 1 then CLUSTER_EOF else s[i + 1]
    ensures links[s[i]] != CLUSTER_FREE
  {
  }

  lemma FreeNotOwned(links: seq<nat>, chains: map<nat, seq<nat>>, c: nat)
    requires WellFormed(links, chains) && InRange(links, c) && links[c] == CLUSTER_FREE
    ensures forall h :: h in chains ==> c !in chains[h]
    ensures c !in chains
  {
    forall h | h in chains ensures c !in chains[h] {
      if c in chains[h] {
        var i :| 0 <= i < |chains[h]| && chains[h][i] == c;
        LinkInChain(links, chains[h], i);
      }
    }
    if c in chains {
      LinkInChain(links, chains[c], 0);
    }
  }

  /** A used cluster has its place in exactly one chain. */
  lemma FindOwner(links: seq<nat>, chains: map<nat, seq<nat>>, c: nat) returns (h: nat, i: nat)
    requires WellFormed(links, chains) && InRange(links, c) && links[c] != CLUSTER_FREE
    ensures h in chains && i < |chains[h]| && chains[h][i] == c
    ensures forall k :: k in chains && c in chains[k] ==> k == h
  {
    assert Owned(chains, c);
    h :| h in chains && c in chains[h];
    i :| 0 <= i < |chains[h]| && chains[h][i] == c;
  }

  lemma ChainKept(links: seq<nat>, links': seq<nat>, s: seq<nat>)
    requires IsChain(links, s) && |links'| == |links|
    requires forall c :: c in s ==> InRange(links, c) && links'[c] == links[c]
    ensures IsChain(links', s)
  {
    assert forall i :: 0 <= i < |s| ==> s[i] in s;
  }

  lemma ChainInRange(links: seq<nat>, chains: map<nat, seq<nat>>, h: nat)
    requires WellFormed(links, chains) && h in chains
    ensures IsChain(links, chains[h]) && chains[h][0] == h
    ensures forall c :: c in chains[h] ==> InRange(links, c) && links[c] != CLUSTER_FREE
    ensures forall k, c {:trigger c in chains[k]} :: k in chains && k != h && c in chains[h] ==> c !in chains[k]
  {
    forall c | c in chains[h] ensures InRange(links, c) && links[c] != CLUSTER_FREE {
      var i :| 0 <= i < |chains[h]| && chains[h][i] == c;
      LinkInChain(links, chains[h], i);
    }
  }

  /** The links of all chains but h are as before, and s takes no cluster of theirs. */
  ghost predicate OthersStand(links: seq<nat>, chains: map<nat, seq<nat>>, links': seq<nat>, h: nat, s: seq<nat>) {
    && |links'| == |links|
    && forall k, c {:trigger c in chains[k]} :: k in chains && k != h && c in chains[k] ==>
         c !in s && InRange(links, c) && links'[c] == links[c]
  }

  /** Changing one chain, or starting one, is safe when the links of all other chains stay,
      the new chain takes no cluster of theirs, and nothing else becomes used. */
  lemma ReplaceChain(links: seq<nat>, chains: map<nat, seq<nat>>, links': seq<nat>, h: nat, s: seq<nat>)
    requires WellFormed(links, chains) && |links'| == |links|
    requires IsChain(links', s) && s[0] == h && OthersStand(links, chains, links', h, s)
    requires forall c: nat :: InRange(links, c) && links'[c] != CLUSTER_FREE ==> c in s || Owned(chains - {h}, c)
    ensures WellFormed(links', chains[h := s])
  {
    hide AllChains, DisjointChains, AllOwned, OthersStand, IsChain, Owned;
    ReplacedChains(links, chains, links', h, s);
    ReplacedDisjoint(links, chains, links', h, s);
    ReplacedOwned(links, chains, links', h, s);
  }

  lemma ReplacedChains(links: seq<nat>, chains: map<nat, seq<nat>>, links': seq<nat>, h: nat, s: seq<nat>)
    requires AllChains(links, chains) && |links'| == |links| && OthersStand(links, chains, links', h, s)
    requires IsChain(links', s) && s[0] == h
    ensures AllChains(links', chains[h := s])
  {
    hide Owned;
    var chains' := chains[h := s];
    forall k | k in chains' ensures IsChain(links', chains'[k]) && chains'[k][0] == k {
      if k != h { ChainKept(links, links', chains[k]); }
    }
  }

  lemma ReplacedDisjoint(links: seq<nat>, chains: map<nat, seq<nat>>, links': seq<nat>, h: nat, s: seq<nat>)
    requires DisjointChains(chains) && |links'| == |links| && OthersStand(links, chains, links', h, s)
    ensures DisjointChains(chains[h := s])
  {
  }

  lemma ReplacedOwned(links: seq<nat>, chains: map<nat, seq<nat>>, links': seq<nat>, h: nat, s: seq<nat>)
    requires |links'| == |links|
    requires forall c: nat :: InRange(links, c) && links'[c] != CLUSTER_FREE ==> c in s || Owned(chains - {h}, c)
    ensures AllOwned(links', chains[h := s])
  {
    var chains' := chains[h := s];
    forall c: nat | InRange(links', c) && links'[c] != CLUSTER_FREE ensures Owned(chains', c) {
      if c in s {
        assert c in chains'[h];
      } else {
        var k :| k in chains - {h} && c in (chains - {h})[k];
        assert c in chains'[k];
      }
    }
  }

  /** The same for removing a chain. */
  lemma RemoveChain(links: seq<nat>, chains: map<nat, seq<nat>>, links': seq<nat>, h: nat)
    requires WellFormed(links, chains) && |links'| == |links|
    requires forall k, c {:trigger c in chains[k]} :: k in chains && k != h && c in chains[k] ==>
               InRange(links, c) && links'[c] == links[c]
    requires forall c: nat :: InRange(links, c) && links'[c] != CLUSTER_FREE ==> Owned(chains - {h}, c)
    ensures WellFormed(links', chains - {h})
  {
    var chains' := chains - {h};
    forall k | k in chains' ensures IsChain(links', chains'[k]) && chains'[k][0] == k {
      ChainKept(links, links', chains[k]);
    }
  }

  /** A used cluster is in chain h or owned by the others. */
  lemma OwnedByOthers(links: seq<nat>, chains: map<nat, seq<nat>>, h: nat, c: nat)
    requires WellFormed(links, chains) && InRange(links, c) && links[c] != CLUSTER_FREE
    ensures (h in chains && c in chains[h]) || Owned(chains - {h}, c)
  {
    var k, i := FindOwner(links, chains, c);
    if k != h {
      assert k in chains - {h} && c in (chains - {h})[k];
    }
  }

  // ---- allocating ----

  lemma StartChain(links: seq<nat>, chains: map<nat, seq<nat>>, n: nat)
    requires WellFormed(links, chains) && InRange(links, n) && links[n] == CLUSTER_FREE
    ensures WellFormed(links[n := CLUSTER_EOF], chains[n := [n]]) && n !in chains
    ensures FreeSet(links[n := CLUSTER_EOF]) == FreeSet(links) - {n}
    ensures FreeCount(links[n := CLUSTER_EOF]) == FreeCount(links) - 1
  {
    var links' := links[n := CLUSTER_EOF];
    FreeNotOwned(links, chains, n);
    OthersStandBy(links, chains, links', n, [n]);
    forall c: nat | InRange(links, c) && links'[c] != CLUSTER_FREE ensures c in [n] || Owned(chains - {n}, c) {
      if c != n { OwnedByOthers(links, chains, n, c); }
    }
    ReplaceChain(links, chains, links', n, [n]);
  }

  /** The links after cluster n was put behind the last cluster t of a chain. */
  function Appended(links: seq<nat>, t: nat, n: nat): seq<nat>
    requires InRange(links, t) && InRange(links, n)
  {
    links[t := n][n := CLUSTER_EOF]
  }

  lemma ExtendChain(links: seq<nat>, chains: map<nat, seq<nat>>, h: nat, t: nat, n: nat)
    requires WellFormed(links, chains) && h in chains && InRange(links, n) && links[n] == CLUSTER_FREE
    requires |chains[h]| > 0 && t == chains[h][|chains[h]| - 1]
    ensures InRange(links, t) && t != n
    ensures WellFormed(Appended(links, t, n), chains[h := chains[h] + [n]])
    ensures FreeSet(Appended(links, t, n)) == FreeSet(links) - {n}
    ensures FreeCount(Appended(links, t, n)) == FreeCount(links) - 1
  {
    var s := chains[h];
    assert t in s;
    ChainInRange(links, chains, h);
    FreeNotOwned(links, chains, n);
    var links' := Appended(links, t, n);
    ChainAppended(links, s, n);
    OthersStandBy(links, chains, links', h, s + [n]);
    forall c: nat | InRange(links, c) && links'[c] != CLUSTER_FREE ensures c in s + [n] || Owned(chains - {h}, c) {
      if c != n { OwnedByOthers(links, chains, h, c); }
    }
    ReplaceChain(links, chains, links', h, s + [n]);
    assert FreeSet(links') == FreeSet(links) - {n} by { AppendedFree(links, t, n); }
  }

  lemma AppendedFree(links: seq<nat>, t: nat, n: nat)
    requires InRange(links, t) && InRange(links, n) && links[t] != CLUSTER_FREE
    ensures FreeSet(Appended(links, t, n)) == FreeSet(links) - {n}
  {
  }

  /** The other chains stand when only clusters of the own chain, or free ones, changed their links. */
  lemma OthersStandBy(links: seq<nat>, chains: map<nat, seq<nat>>, links': seq<nat>, h: nat, s: seq<nat>)
    requires WellFormed(links, chains) && |links'| == |links|
    requires forall c: nat :: InRange(links, c) && links'[c] != links[c] ==>
               links[c] == CLUSTER_FREE || (h in chains && c in chains[h])
    requires forall c :: c in s ==> InRange(links, c) && (links[c] == CLUSTER_FREE || (h in chains && c in chains[h]))
    ensures OthersStand(links, chains, links', h, s)
  {
    hide AllOwned, IsChain, Owned;
    forall k, c {:trigger c in chains[k]} | k in chains && k != h && c in chains[k]
      ensures c !in s && InRange(links, c) && links'[c] == links[c]
    {
      ChainInRange(links, chains, k);
    }
  }

  lemma ChainAppended(links: seq<nat>, s: seq<nat>, n: nat)
    requires IsChain(links, s) && InRange(links, n) && n !in s
    ensures InRange(links, s[|s| - 1]) && IsChain(Appended(links, s[|s| - 1], n), s + [n])
  {
    var s', links' := s + [n], Appended(links, s[|s| - 1], n);
    forall i | 0 <= i < |s'| - 1 ensures links'[s'[i]] == s'[i + 1] {
      assert s[i] in s;
      if i < |s| - 1 { assert s[i] != s[|s| - 1]; }
    }
  }

  // ---- freeing ----

  /** Freeing the clusters of s, all used so far, adds exactly them to the free ones. */
  lemma ClearedCount(links: seq<nat>, s: seq<nat>)
    requires forall i :: 0 <= i < |s| ==> InRange(links, s[i]) && links[s[i]] != CLUSTER_FREE
    requires Distinct(s)
    ensures FreeSet(Cleared(links, s)) == FreeSet(links) + Elements(s)
    ensures FreeCount(Cleared(links, s)) == FreeCount(links) + |s|
  {
    DistinctCount(s);
    var f, e := FreeSet(links), Elements(s);
    assert f !! e;
    assert FreeSet(Cleared(links, s)) == f + e;
    assert |f + e| == |f| + |e|;
  }

  /** Clearing at a head frees exactly that chain. */
  lemma DropChain(links: seq<nat>, chains: map<nat, seq<nat>>, h: nat)
    requires WellFormed(links, chains) && h in chains
    ensures WellFormed(Cleared(links, chains[h]), chains - {h})
  {
    var links' := Cleared(links, chains[h]);
    forall k, c {:trigger c in chains[k]} | k in chains && k != h && c in chains[k]
      ensures InRange(links, c) && links'[c] == links[c]
    {
      ChainInRange(links, chains, k);
    }
    forall c: nat | InRange(links, c) && links'[c] != CLUSTER_FREE ensures Owned(chains - {h}, c) {
      OwnedByOthers(links, chains, h, c);
    }
    RemoveChain(links, chains, links', h);
  }

  /** The links after all but the first n clusters of s were freed and the n-th ends the chain. */
  function Cut(links: seq<nat>, s: seq<nat>, n: nat): (r: seq<nat>)
    requires 0 < n <= |s| && InRange(links, s[n - 1])
    ensures |r| == |links|
  {
    Cleared(links, s[n..])[s[n - 1] := CLUSTER_EOF]
  }

  lemma CutChain(links: seq<nat>, chains: map<nat, seq<nat>>, h: nat, n: nat)
    requires WellFormed(links, chains) && h in chains && 0 < n <= |chains[h]|
    ensures InRange(links, chains[h][n - 1])
    ensures WellFormed(Cut(links, chains[h], n), chains[h := chains[h][..n]])
    ensures FreeCount(Cut(links, chains[h], n)) == FreeCount(links) + |chains[h]| - n
  {
    var s := chains[h];
    ChainInRange(links, chains, h);
    assert s[n - 1] in s;
    ChainCut(links, s, n);
    var links' := Cut(links, s, n);
    forall c | c in s[n..] ensures c in s {}
    OthersStandBy(links, chains, links', h, s[..n]);
    forall c: nat | InRange(links, c) && links'[c] != CLUSTER_FREE ensures c in s[..n] || Owned(chains - {h}, c) {
      assert s == s[..n] + s[n..];
      if c !in s { OwnedByOthers(links, chains, h, c); }
    }
    ReplaceChain(links, chains, links', h, s[..n]);
    CutCount(links, s, n);
  }

  lemma CutCount(links: seq<nat>, s: seq<nat>, n: nat)
    requires IsChain(links, s) && 0 < n <= |s|
    ensures FreeCount(Cut(links, s, n)) == FreeCount(links) + |s| - n
  {
    var gone := s[n..];
    forall i | 0 <= i < |gone| ensures InRange(links, gone[i]) && links[gone[i]] != CLUSTER_FREE {
      LinkInChain(links, s, n + i);
    }
    ClearedCount(links, gone);
    LinkInChain(links, s, n - 1);
    assert s[n - 1] !in gone;
    assert FreeSet(Cut(links, s, n)) == FreeSet(Cleared(links, gone));
  }

  lemma ChainCut(links: seq<nat>, s: seq<nat>, n: nat)
    requires IsChain(links, s) && 0 < n <= |s|
    ensures IsChain(Cut(links, s, n), s[..n])
  {
    var links' := Cut(links, s, n);
    forall i | 0 <= i < n - 1 ensures links'[s[i]] == s[i + 1] {
      assert s[i] !in s[n..];
      assert s[i] != s[n - 1];
    }
  }
}
