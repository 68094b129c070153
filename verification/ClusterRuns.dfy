/** The run-length form of a cluster chain (source/wcfat.c). */
module ClusterRuns {
  import opened Bytes
  import opened Pages
  import opened Layout
  import opened FatEntries

  const FAT_ERR_BROKEN: int := -2
  const FAT_ERR_PARAM: int := -4
  const LAST_CLUSTER_VALUE: nat := 0x0FFF_FFF6

  /** A run: so many clusters follow its first one, then the chain goes on at next_cluster. */
  datatype ChainInfo = ChainInfo(count: nat, next_cluster: nat)

  /** n neighbouring clusters from c on. */
  function Stretch(c: nat, n: nat): (s: seq<nat>)
    ensures |s| == n && forall i :: 0 <= i < n ==> s[i] == c + i
  {
    seq(n, i requires 0 <= i => c + i)
  }

  /** Where run i starts. */
  function Head(start: nat, runs: seq<ChainInfo>, i: nat): nat
    requires i <= |runs|
  {
    if i == 0 then start else runs[i - 1].next_cluster
  }

  /** The chain a list of runs stands for. */
  function Expand(start: nat, runs: seq<ChainInfo>): seq<nat> {
    if runs == [] then []
    else
      var n := |runs| - 1;
      Expand(start, runs[..n]) + Stretch(Head(start, runs, n), runs[n].count + 1)
  }

  /** Run i does not go on where it ends. */
  predicate Apart(start: nat, runs: seq<ChainInfo>, i: nat)
    requires i < |runs|
  {
    runs[i].next_cluster != Head(start, runs, i) + runs[i].count + 1
  }

  /** No two neighbouring runs could have been one. */
  ghost predicate Unmergeable(start: nat, runs: seq<ChainInfo>) {
    forall i :: 0 <= i < |runs| - 1 ==> Apart(start, runs, i)
  }

  /** How often a chain leaves the neighbourhood. */
  function Breaks(s: seq<nat>): nat {
    if |s| <= 1 then 0
    else Breaks(s[..|s| - 1]) + (if s[|s| - 1] == s[|s| - 2] + 1 then 0 else 1)
  }

  lemma {:induction false} BreaksGrow(s: seq<nat>, n: nat)
    requires n <= |s|
    ensures Breaks(s[..n]) <= Breaks(s)
    decreases |s| - n
  {
    if n < |s| {
      assert s[..n + 1][..n] == s[..n];
      BreaksGrow(s, n + 1);
    } else {
      assert s[..n] == s;
    }
  }

  lemma BreaksPush(s: seq<nat>, c: nat)
    requires s != []
    ensures Breaks(s + [c]) == Breaks(s) + (if c == s[|s| - 1] + 1 then 0 else 1)
  {
    assert (s + [c])[..|s|] == s;
  }

  lemma StretchPush(c: nat, n: nat)
    ensures Stretch(c, n + 1) == Stretch(c, n) + [c + n]
  {
  }

  lemma BreaksInStretch(s: seq<nat>, c: nat, n: nat)
    requires s != []
    ensures Breaks(s + Stretch(c, n + 1)) <= Breaks(s) + 1
  {
    hide Breaks;
    StretchPush(c, n);
    if n == 0 {
      BreaksPush(s, c);
      assert s + Stretch(c, 1) == s + [c];
    } else {
      var t := s + Stretch(c, n);
      BreaksInStretch(s, c, n - 1);
      BreaksPush(t, c + n);
      assert s + Stretch(c, n + 1) == t + [c + n];
    }
  }

  lemma OnlyStretch(c: nat, n: nat)
    ensures Breaks(Stretch(c, n)) == 0
  {
    if n > 1 {
      OnlyStretch(c, n - 1);
      StretchPush(c, n - 1);
      BreaksPush(Stretch(c, n - 1), c + n - 1);
    }
  }

  /** No list of runs for the same chain is shorter than one run for each break and one more. */
  lemma {:induction false} FewestRuns(start: nat, runs: seq<ChainInfo>)
    requires runs != []
    ensures Expand(start, runs) != []
    ensures Breaks(Expand(start, runs)) < |runs|
  {
    hide Breaks, Stretch;
    var n := |runs| - 1;
    var front, last := Expand(start, runs[..n]), Stretch(Head(start, runs, n), runs[n].count + 1);
    if n == 0 {
      assert front == [] && [] + last == last;
      OnlyStretch(start, runs[0].count + 1);
    } else {
      FewestRuns(start, runs[..n]);
      BreaksInStretch(front, Head(start, runs, n), runs[n].count);
    }
  }

  lemma ExpandPush(start: nat, runs: seq<ChainInfo>, it: ChainInfo)
    ensures Expand(start, runs + [it]) == Expand(start, runs) + Stretch(Head(start, runs, |runs|), it.count + 1)
  {
    hide Stretch;
    assert (runs + [it])[..|runs|] == runs;
    SameHead(start, runs, runs + [it], |runs|);
  }

  /** A neighbour makes the last run longer. */
  lemma Lengthened(start: nat, runs: seq<ChainInfo>, c: nat)
    requires runs != [] && c == Head(start, runs, |runs| - 1) + runs[|runs| - 1].count + 1
    ensures var n := |runs| - 1;
            Expand(start, runs[n := runs[n].(count := runs[n].count + 1)]) == Expand(start, runs) + [c]
  {
    hide Stretch, Expand;
    var n := |runs| - 1;
    var front, last := runs[..n], runs[n];
    SameHead(start, runs, front, n);
    ExpandPush(start, front, last);
    ExpandPush(start, front, last.(count := last.count + 1));
    StretchPush(Head(start, front, n), last.count + 1);
    assert && front + [last] == runs
           && front + [last.(count := last.count + 1)] == runs[n := last.(count := last.count + 1)];
  }

  /** Any other cluster starts a new run. */
  lemma Opened(start: nat, runs: seq<ChainInfo>, c: nat)
    requires runs != []
    ensures var n := |runs| - 1;
            Expand(start, runs[n := runs[n].(next_cluster := c)] + [ChainInfo(0, 0)]) == Expand(start, runs) + [c]
  {
    hide Stretch, Expand;
    var n := |runs| - 1;
    var front, last := runs[..n], runs[n];
    var closed := runs[n := last.(next_cluster := c)];
    ExpandPush(start, front, last);
    ExpandPush(start, front, last.(next_cluster := c));
    assert front + [last] == runs && front + [last.(next_cluster := c)] == closed;
    ExpandPush(start, closed, ChainInfo(0, 0));
    StretchOne(c);
  }

  lemma StretchOne(c: nat)
    ensures Stretch(c, 1) == [c]
  {
  }

  lemma LastOf(start: nat, runs: seq<ChainInfo>)
    requires runs != []
    ensures var s := Expand(start, runs);
            var n := |runs| - 1;
            s != [] && s[|s| - 1] == Head(start, runs, n) + runs[n].count
  {
  }

  /** The 32-bit table of a volume, read one sector of 128 entries at a time; the last sector read is kept. */
  class FatReader {
    const disc: seq<seq<nat>>
    const fatSect: nat
    const totalClust: nat
    var cachedSector: nat
    var chainBuf: seq<nat>

    /** Sector 0, the mark for "nothing read yet", holds no part of the table. */
    ghost predicate Sane() {
      0 < fatSect && forall i :: 0 <= i < |disc| ==> |disc[i]| == 128
    }

    ghost predicate Valid()
      reads this
    {
      && Sane()
      && (cachedSector != 0 ==> cachedSector < |disc| && chainBuf == disc[cachedSector])
    }

    constructor (disc: seq<seq<nat>>, fatSect: nat, totalClust: nat)
      requires 0 < fatSect && forall i :: 0 <= i < |disc| ==> |disc[i]| == 128
      ensures Valid() && this.disc == disc && this.fatSect == fatSect && this.totalClust == totalClust
    {
      this.disc, this.fatSect, this.totalClust := disc, fatSect, totalClust;
      cachedSector, chainBuf := 0, [];
    }

    /** The table has an entry for cluster c. */
    predicate Has(c: nat) {
      fatSect + c / 128 < |disc|
    }

    ghost function Entry(c: nat): nat
      requires Sane() && Has(c)
    {
      disc[fatSect + c / 128][c % 128]
    }

    /** The sectors are those of a volume of 512-byte sectors, every four bytes a number. */
    ghost predicate SectorsOf(view: seq<byte>) {
      forall i, k :: 0 <= i < |disc| && 0 <= k < 128 && k < |disc[i]| ==>
        512 * i + 4 * k + 4 <= |view| && disc[i][k] == ToU32(view, 512 * i + 4 * k)
    }

    /** The entry read is the entry of the cluster in the 32-bit table of that volume. */
    lemma EntryIsRaw(g: Geometry, view: seq<byte>, c: nat)
      requires Sane() && Has(c) && SectorsOf(view)
      requires g.filesysType == FS_FAT32 && g.bytesPerSector == 512 && g.fatStart == fatSect && EntryFits(g, view, c)
      ensures Entry(c) == RawEntry(g, view, c)
    {
      var i, k := fatSect + c / 128, c % 128;
      assert 512 * i + 4 * k == 512 * fatSect + 4 * c;
      assert |disc[i]| == 128;
    }

    /** The chain ends at the values that are the end of a chain in a 32-bit table. */
    lemma EndIsEof(v: nat)
      ensures v > LAST_CLUSTER_VALUE <==> Normalize(FS_FAT32, v) == CLUSTER_EOF
    {
      EndMarks(v);
    }

    /** Whatever was read before, the entry is the one on the disc. */
    method GetNextCluster(cur: nat) returns (next: nat)
      requires Valid() && Has(cur)
      modifies this
      ensures Valid() && next == Entry(cur)
    {
      var sector := fatSect + cur / 128;
      var delta := cur % 128;
      if sector != cachedSector {
        chainBuf := disc[sector];
        cachedSector := sector;
      }
      next := chainBuf[delta];
    }

    /** The entry of the i-th cluster of s names the next one. */
    ghost predicate Follows(s: seq<nat>, i: nat)
      requires Sane() && i + 1 < |s| && Has(s[i])
    {
      Entry(s[i]) == s[i + 1] <= LAST_CLUSTER_VALUE
    }

    /** s is the chain that starts at its first element and ends at an end-of-chain value. */
    ghost predicate IsChain(s: seq<nat>)
      requires Sane()
    {
      && s != [] && (forall i :: 0 <= i < |s| ==> Has(s[i]))
      && (forall i :: 0 <= i < |s| - 1 ==> Follows(s, i))
      && Entry(s[|s| - 1]) > LAST_CLUSTER_VALUE
    }

    /** Every cluster that is not the neighbour of the one before lies below the limit the code checks. */
    ghost predicate JumpsBelow(s: seq<nat>) {
      forall i :: 0 <= i < |s| - 1 && s[i + 1] != s[i] + 1 ==> s[i + 1] < totalClust
    }

    /** The limit is the number of clusters (source/wcfat.c, line 138), which are numbered from 2 on:
        it is kept exactly when no jump goes to one of the last two. */
    lemma LastTwo(s: seq<nat>)
      requires forall i :: 0 <= i < |s| ==> 2 <= s[i] <= totalClust + 1
      ensures JumpsBelow(s) <==> forall i :: 0 < i < |s| && s[i] >= totalClust ==> s[i] == s[i - 1] + 1
      ensures !JumpsBelow(s) ==>
                exists i :: 0 < i < |s| && (s[i] == totalClust || s[i] == totalClust + 1) && s[i] != s[i - 1] + 1
      ensures totalClust > 2 ==> !JumpsBelow([2, totalClust + 1])
    {
      if !JumpsBelow(s) {
        var i :| 0 <= i < |s| - 1 && s[i + 1] != s[i] + 1 && s[i + 1] >= totalClust;
        var k := i + 1;
        assert s[k] != s[k - 1] + 1;
      } else {
        forall i | 0 < i < |s| && s[i] >= totalClust ensures s[i] == s[i - 1] + 1 {
          var k := i - 1;
          assert s[k + 1] != s[k] + 1 ==> s[k + 1] < totalClust;
        }
      }
      if totalClust > 2 {
        var t := [2, totalClust + 1];
        assert t[0 + 1] != t[0] + 1 && t[0 + 1] >= totalClust;
      }
    }

    /** build_cluster_chain: the runs written expand to the chain, could not be fewer, and the result
        is their number less one.  The limit is the number of clusters, so a jump to one of the last
        two clusters of a volume counts as damage; that is the only failure. */
    method BuildClusterChain(start: nat, chain: array<ChainInfo>, ghost s: seq<nat>) returns (r: int)
      requires Valid() && chain.Length > 0
      requires 2 <= start <= 0xFFFF_FFF6 ==> IsChain(s) && s[0] == start && Breaks(s) < chain.Length
      modifies this, chain
      ensures Valid()
      ensures !(2 <= start <= 0xFFFF_FFF6) ==> r == FAT_ERR_PARAM
      ensures 2 <= start <= 0xFFFF_FFF6 && !JumpsBelow(s) ==> r == FAT_ERR_BROKEN
      ensures 2 <= start <= 0xFFFF_FFF6 && JumpsBelow(s) ==>
                && 0 <= r < chain.Length && r == Breaks(s)
                && Expand(start, chain[..r + 1]) == s && Unmergeable(start, chain[..r + 1])
    {
      hide Expand, Unmergeable, Breaks;
      chain[0] := ChainInfo(0, 0);
      if start < 2 || start > 0xFFFF_FFF6 { return FAT_ERR_PARAM; }
      var curCluster, k := start, 0;
      ghost var i := 0;
      FirstRun(start, s, chain[..1]);
      while true
        invariant Valid() && 0 <= i < |s| && curCluster == s[i] && JumpsBelow(s[..i + 1])
        invariant 0 <= k < chain.Length && Covers(start, chain[..k + 1], s, i)
        decreases |s| - i
      {
        var nextCluster := GetNextCluster(curCluster);
        if nextCluster > LAST_CLUSTER_VALUE {
          assert i < |s| - 1 ==> Follows(s, i);
          assert s[..i + 1] == s;
          return k;
        }
        assert Follows(s, i);
        ghost var runs := chain[..k + 1];
        if nextCluster == curCluster + 1 {
          CoversNeighbour(start, runs, s, i);
          chain[k] := chain[k].(count := chain[k].count + 1);
          assert chain[..k + 1] == runs[k := runs[k].(count := runs[k].count + 1)];
        } else if nextCluster < totalClust {
          CoversJump(start, runs, s, i);
          chain[k] := chain[k].(next_cluster := nextCluster);
          k := k + 1;
          chain[k] := ChainInfo(0, 0);
          assert chain[..k + 1] == runs[k - 1 := runs[k - 1].(next_cluster := nextCluster)] + [ChainInfo(0, 0)];
        } else {
          return FAT_ERR_BROKEN;
        }
        curCluster := nextCluster;
        i := i + 1;
      }
    }
  }

  /** The runs stand for the chain up to its i-th cluster, as few as can be. */
  ghost predicate Covers(start: nat, runs: seq<ChainInfo>, s: seq<nat>, i: nat) {
    && runs != [] && i < |s| && Expand(start, runs) == s[..i + 1]
    && Unmergeable(start, runs) && |runs| - 1 == Breaks(s[..i + 1])
  }

  lemma FirstRun(start: nat, s: seq<nat>, runs: seq<ChainInfo>)
    requires s != [] && s[0] == start && runs == [ChainInfo(0, 0)]
    ensures Covers(start, runs, s, 0)
  {
    assert Expand(start, runs[..0]) == [];
    assert Expand(start, runs) == Stretch(start, 1) == [start];
  }

  lemma CoversNeighbour(start: nat, runs: seq<ChainInfo>, s: seq<nat>, i: nat)
    requires Covers(start, runs, s, i) && i + 1 < |s| && s[i + 1] == s[i] + 1
    ensures var k := |runs| - 1; Covers(start, runs[k := runs[k].(count := runs[k].count + 1)], s, i + 1)
  {
    hide Expand;
    var k := |runs| - 1;
    var more := runs[k := runs[k].(count := runs[k].count + 1)];
    LastOf(start, runs);
    Lengthened(start, runs, s[i + 1]);
    assert s[..i + 2] == s[..i + 1] + [s[i + 1]];
    BreaksPush(s[..i + 1], s[i + 1]);
    forall j | 0 <= j < k ensures Apart(start, more, j) {
      SameHead(start, runs, more, j);
      assert Apart(start, runs, j);
    }
  }

  lemma CoversJump(start: nat, runs: seq<ChainInfo>, s: seq<nat>, i: nat)
    requires Covers(start, runs, s, i) && i + 1 < |s| && s[i + 1] != s[i] + 1
    ensures var k := |runs| - 1; Covers(start, runs[k := runs[k].(next_cluster := s[i + 1])] + [ChainInfo(0, 0)], s,
                                        i + 1)
    ensures |runs| <= Breaks(s)
  {
    hide Expand, Breaks, Unmergeable, Stretch, Head;
    LastOf(start, runs);
    Opened(start, runs, s[i + 1]);
    StillUnmergeable(start, runs, s[i + 1]);
    assert s[..i + 2] == s[..i + 1] + [s[i + 1]];
    BreaksPush(s[..i + 1], s[i + 1]);
    BreaksGrow(s, i + 2);
  }

  lemma StillUnmergeable(start: nat, runs: seq<ChainInfo>, c: nat)
    requires runs != [] && Unmergeable(start, runs) && c != Head(start, runs, |runs| - 1) + runs[|runs| - 1].count + 1
    ensures Unmergeable(start, runs[|runs| - 1 := runs[|runs| - 1].(next_cluster := c)] + [ChainInfo(0, 0)])
  {
    hide Head;
    var k := |runs| - 1;
    var more := runs[k := runs[k].(next_cluster := c)] + [ChainInfo(0, 0)];
    forall j | 0 <= j < |more| - 1 ensures Apart(start, more, j) {
      SameHead(start, runs, more, j);
      if j < k { assert Apart(start, runs, j) && more[j] == runs[j]; }
    }
  }

  lemma SameHead(start: nat, runs: seq<ChainInfo>, more: seq<ChainInfo>, j: nat)
    requires j <= |runs| && j <= |more| && forall i :: 0 <= i < j ==> i < |more| && more[i] == runs[i]
    ensures Head(start, more, j) == Head(start, runs, j)
  {
  }
}
