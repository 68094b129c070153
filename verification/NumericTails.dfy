/** Telling aliases apart: the numbered variants of an alias, and why one of them is always free
    in a directory that is not too full (source/directory.c). */
module NumericTails {
  import opened Bytes
  import opened Names

  /** What a directory shows of an entry: its name, its alias and the data behind the alias. */
  datatype Listed = Listed(name: Text, alias: Text, data: seq<byte>)

  /** t is the name or the alias of an entry, up to case. */
  predicate Taken(ents: seq<Listed>, t: Text) {
    exists k :: 0 <= k < |ents| && (SameName(t, ents[k].name) || SameName(t, ents[k].alias))
  }

  function Digits(i: nat): (d: Text)
    ensures |d| > 0 && forall k :: 0 <= k < |d| ==> 0x30 <= d[k] <= 0x39
  {
    if i < 10 then [0x30 + i] else Digits(i / 10) + [0x30 + i % 10]
  }

  lemma FewDigits(i: nat, n: nat)
    requires 1 <= n <= 6 && i < Power10(n)
    ensures |Digits(i)| <= n
  {
    if i >= 10 { FewDigits(i / 10, n - 1); }
  }

  function Power10(n: nat): nat {
    if n == 0 then 1 else 10 * Power10(n - 1)
  }

  lemma UpToSixDigits(i: nat)
    requires i <= MAX_NUMERIC_TAIL
    ensures |Digits(i)| <= 6
  {
    assert Power10(6) == 1000000 by {
      assert Power10(2) == 100 && Power10(4) == 10000;
    }
    FewDigits(i, 6);
  }

  lemma DigitsDiffer(i: nat, k: nat)
    requires Digits(i) == Digits(k)
    ensures i == k
  {
    var d := Digits(i);
    if i >= 10 && k >= 10 {
      assert Digits(i / 10) == d[..|d| - 1] == Digits(k / 10);
      assert d[|d| - 1] == 0x30 + i % 10 == 0x30 + k % 10;
      DigitsDiffer(i / 10, k / 10);
    }
  }

  lemma MoreDigits(i: nat)
    ensures |Digits(i)| <= |Digits(i + 1)|
  {
    if i >= 10 {
      if (i + 1) / 10 != i / 10 {
        assert (i + 1) / 10 == i / 10 + 1;
        MoreDigits(i / 10);
      }
    }
  }

  /** The primary part of an alias filled up to eight characters. */
  function Expanded(a: Text): (r: Text)
    requires AliasShape(a)
    ensures AliasShape(r) && |r| >= 8 && FirstDot(r) == 8 && r[8..] == a[FirstDot(a)..]
    ensures var p := FirstDot(a); r[..p] == a[..p] && forall i :: p <= i < 8 ==> r[i] == UNDERSCORE
  {
    var p := FirstDot(a);
    var fill := seq(8 - p, i => UNDERSCORE);
    var r := a[..p] + fill + a[p..];
    ExpandedShape(a, r, fill);
    r
  }

  lemma ExpandedShape(a: Text, r: Text, fill: Text)
    requires AliasShape(a) && r == a[..FirstDot(a)] + fill + a[FirstDot(a)..]
    requires |fill| == 8 - FirstDot(a) && forall i :: 0 <= i < |fill| ==> fill[i] == UNDERSCORE
    ensures AliasShape(r) && FirstDot(r) == 8 && r[8..] == a[FirstDot(a)..]
  {
    var p := FirstDot(a);
    assert forall i :: 0 <= i < p ==> Clean(a[..p][i]);
    assert r[..8] == a[..p] + fill;
    assert r[8..] == a[p..];
    if p < |a| {
      assert r[8] == a[p..][0];
      assert r[9..] == a[p + 1..];
    }
    FirstDotIs(r, 8);
  }

  /** The i-th variant: the number right-aligned in the primary part, behind a tilde. */
  function Candidate(a: Text, i: nat): (r: Text)
    requires |a| >= 8 && i <= MAX_NUMERIC_TAIL
    ensures |r| == |a| && r[8..] == a[8..]
  {
    UpToSixDigits(i);
    a[..7 - |Digits(i)|] + [TILDE] + Digits(i) + a[8..]
  }

  /** For example: the twelfth variant of LONG.TXT. */
  lemma {:induction false} TwelfthVariant()
    ensures AliasShape(Codes("LONG.TXT")) && Expanded(Codes("LONG.TXT")) == Codes("LONG____.TXT")
    ensures Candidate(Codes("LONG____.TXT"), 12) == Codes("LONG_~12.TXT")
  {
    hide FirstDot, Expanded;
    var a, full := Codes("LONG.TXT"), Codes("LONG____.TXT");
    FirstDotIs(a, 4);
    assert |a[5..]| == 3 && a[5..][0] == 'T' as nat && a[5..][1] == 'X' as nat && a[5..][2] == 'T' as nat;
    assert a[..4] == Codes("LONG") && a[4..] == Codes(".TXT");
    var r := Expanded(a);
    assert r[..4] == Codes("LONG") && r[8..] == Codes(".TXT");
    assert Digits(12) == Codes("12");
    assert full[..5] == Codes("LONG_") && full[8..] == Codes(".TXT");
  }

  lemma CandidateShape(a: Text, i: nat)
    requires AliasShape(a) && |a| >= 8 && FirstDot(a) == 8 && i <= MAX_NUMERIC_TAIL
    ensures AliasShape(Candidate(a, i)) && FirstDot(Candidate(a, i)) == 8 && Candidate(a, i)[0] != DOT
  {
    UpToSixDigits(i);
    var front := a[..7 - |Digits(i)|] + [TILDE] + Digits(i);
    CleanFront(a, i);
    NewFront(a, front);
  }

  lemma CleanFront(a: Text, i: nat)
    requires |a| >= 8 && AllClean(a[..8]) && |Digits(i)| <= 6
    ensures AllClean(a[..7 - |Digits(i)|] + [TILDE] + Digits(i))
  {
    var n := 7 - |Digits(i)|;
    CleanPrefix(a, n, 8);
    CleanJoin(a[..n], [TILDE]);
    CleanJoin(a[..n] + [TILDE], Digits(i));
  }

  lemma CleanJoin(s: Text, t: Text)
    requires AllClean(s) && AllClean(t)
    ensures AllClean(s + t)
  {
  }

  /** Another clean primary part of full length before the same extension. */
  lemma NewFront(a: Text, front: Text)
    requires AliasShape(a) && |a| >= 8 && FirstDot(a) == 8 && |front| == 8 && AllClean(front)
    ensures AliasShape(front + a[8..]) && FirstDot(front + a[8..]) == 8 && (front + a[8..])[0] != DOT
  {
    var r := front + a[8..];
    assert r[..8] == front && r[8..] == a[8..];
    CleanHasNoDot(front);
    if 8 < |a| {
      assert r[8] == a[8..][0] == a[8];
      assert r[9..] == a[9..];
    }
    FirstDotIs(r, 8);
  }

  /** Writing a later number over an earlier one leaves no trace of it. */
  lemma CandidateAgain(a: Text, i: nat)
    requires |a| >= 8 && i + 1 <= MAX_NUMERIC_TAIL
    ensures Candidate(Candidate(a, i), i + 1) == Candidate(a, i + 1)
  {
    UpToSixDigits(i);
    UpToSixDigits(i + 1);
    MoreDigits(i);
    var n := 7 - |Digits(i + 1)|;
    assert Candidate(a, i)[..n] == a[..n];
  }

  /** Writes the number i and the tilde, from the right. */
  method WriteTail(alias: array<nat>, i: nat)
    requires 8 <= alias.Length && 1 <= i <= MAX_NUMERIC_TAIL
    modifies alias
    ensures alias[..] == Candidate(old(alias[..]), i)
  {
    UpToSixDigits(i);
    ghost var a := alias[..];
    ghost var done: Text := [];
    var j, at := i, 7;
    while j > 0
      invariant 0 <= j && 0 <= at <= 7 && |done| == 7 - at
      invariant alias[..] == a[..at + 1] + done + a[8..]
      invariant if j > 0 then Digits(j) + done == Digits(i) else done == Digits(i)
    {
      ghost var d := 0x30 + j % 10;
      assert j < 10 ==> Digits(j) + done == [d] + done;
      assert j >= 10 ==> Digits(j) + done == Digits(j / 10) + ([d] + done);
      Update(a, at, done, d);
      alias[at] := 0x30 + j % 10;
      assert alias[..] == (a[..at + 1] + done + a[8..])[at := d];
      done := [d] + done;
      at := at - 1;
      j := j / 10;
    }
    Update(a, at, done, TILDE);
    alias[at] := TILDE;
    assert alias[..] == (a[..at + 1] + done + a[8..])[at := TILDE];
  }

  lemma Update(a: Text, at: nat, done: Text, c: nat)
    requires at < 8 <= |a|
    ensures (a[..at + 1] + done + a[8..])[at := c] == a[..at] + [c] + done + a[8..] == a[..at] + ([c] + done) + a[8..]
  {
  }

  /** The numbered variants are different names, also up to case. */
  lemma CandidatesDiffer(a: Text, i: nat, k: nat)
    requires |a| >= 8 && i <= MAX_NUMERIC_TAIL && k <= MAX_NUMERIC_TAIL
    requires SameName(Candidate(a, i), Candidate(a, k))
    ensures i == k
  {
    UpToSixDigits(i);
    UpToSixDigits(k);
    if |Digits(i)| == |Digits(k)| {
      SameTail(a, i, k);
      DigitsDiffer(i, k);
    } else if |Digits(i)| < |Digits(k)| {
      TildeAgainstDigit(a, i, k);
    } else {
      TildeAgainstDigit(a, k, i);
    }
  }

  lemma SameTail(a: Text, i: nat, k: nat)
    requires |a| >= 8 && i <= MAX_NUMERIC_TAIL && k <= MAX_NUMERIC_TAIL && |Digits(i)| == |Digits(k)| <= 6
    requires SameName(Candidate(a, i), Candidate(a, k))
    ensures Digits(i) == Digits(k)
  {
    var n := 8 - |Digits(i)|;
    forall x | 0 <= x < |Digits(i)| ensures Digits(i)[x] == Digits(k)[x] {
      assert Candidate(a, i)[n + x] == Digits(i)[x] && Candidate(a, k)[n + x] == Digits(k)[x];
    }
  }

  lemma TildeAgainstDigit(a: Text, i: nat, k: nat)
    requires |a| >= 8 && i <= MAX_NUMERIC_TAIL && k <= MAX_NUMERIC_TAIL && |Digits(i)| < |Digits(k)| <= 6
    ensures !SameName(Candidate(a, i), Candidate(a, k)) && !SameName(Candidate(a, k), Candidate(a, i))
  {
    var x := 7 - |Digits(i)|;
    assert Candidate(a, i)[x] == TILDE;
    assert Candidate(a, k)[x] == Digits(k)[x - (8 - |Digits(k)|)];
  }

  /** The first of the numbered variants that no entry has. */
  ghost predicate FirstUntaken(ents: seq<Listed>, a: Text, r: Text)
    requires |a| >= 8
  {
    exists i: nat :: 1 <= i <= MAX_NUMERIC_TAIL && VariantIs(ents, a, i, r)
  }

  ghost predicate VariantIs(ents: seq<Listed>, a: Text, i: nat, r: Text)
    requires |a| >= 8 && i <= MAX_NUMERIC_TAIL
  {
    && r == Candidate(a, i) && !Taken(ents, r)
    && forall k: nat :: 1 <= k < i ==> Taken(ents, Candidate(a, k))
  }

  ghost predicate AllVariantsTaken(ents: seq<Listed>, a: Text)
    requires |a| >= 8
  {
    forall i: nat :: 1 <= i <= MAX_NUMERIC_TAIL ==> Taken(ents, Candidate(a, i))
  }

  // ---- how many variants a directory can block ----

  /** The numbers up to n whose variant is taken. */
  ghost function Blocked(ents: seq<Listed>, a: Text, n: nat): set<nat>
    requires |a| >= 8 && n <= MAX_NUMERIC_TAIL
  {
    set i: nat | 1 <= i <= n && Taken(ents, Candidate(a, i))
  }

  ghost function BlockedBy(t: Text, a: Text, n: nat): set<nat>
    requires |a| >= 8 && n <= MAX_NUMERIC_TAIL
  {
    set i: nat | 1 <= i <= n && SameName(Candidate(a, i), t)
  }

  /** One text blocks at most one of them. */
  lemma OneEach(t: Text, a: Text, n: nat)
    requires |a| >= 8 && n <= MAX_NUMERIC_TAIL
    ensures |BlockedBy(t, a, n)| <= 1
  {
    hide Candidate;
    var b := BlockedBy(t, a, n);
    if b != {} {
      var i :| i in b;
      forall k | k in b ensures k == i {
        SameNameTrans(Candidate(a, k), t, t);
        SameNameTrans(Candidate(a, i), t, t);
        SameNameTrans(Candidate(a, i), t, Candidate(a, k));
        CandidatesDiffer(a, i, k);
      }
      assert b == {i};
    }
  }

  /** Every entry blocks at most two of the variants, with its name and its alias. */
  lemma {:induction false} TwoEach(ents: seq<Listed>, a: Text, n: nat)
    requires |a| >= 8 && n <= MAX_NUMERIC_TAIL
    ensures |Blocked(ents, a, n)| <= 2 * |ents|
  {
    hide Candidate, SameName;
    if ents == [] {
      assert Blocked(ents, a, n) == {};
    } else {
      var last := ents[|ents| - 1];
      var before, x, y := Blocked(ents[..|ents| - 1], a, n), BlockedBy(last.name, a, n), BlockedBy(last.alias, a, n);
      TwoEach(ents[..|ents| - 1], a, n);
      OneEach(last.name, a, n);
      OneEach(last.alias, a, n);
      forall i | i in Blocked(ents, a, n) ensures i in before + x + y {
        var k :| && 0 <= k < |ents|
                 && (SameName(Candidate(a, i), ents[k].name) || SameName(Candidate(a, i), ents[k].alias));
        if k < |ents| - 1 {
          assert ents[..|ents| - 1][k] == ents[k];
        }
      }
      Sizes(Blocked(ents, a, n), before, x, y);
    }
  }

  lemma Sizes(s: set<nat>, a: set<nat>, b: set<nat>, c: set<nat>)
    requires s <= a + b + c
    ensures |s| <= |a| + |b| + |c|
  {
    assert a + b + c == s + (a + b + c - s);
    assert a + b + c == a + (b - a) + (c - a - b);
    assert b == (b - a) + (b * a);
    assert c == (c - a - b) + (c * (a + b));
  }

  /** If all variants up to n are taken, there are at least n / 2 entries. */
  lemma AllTaken(ents: seq<Listed>, a: Text, n: nat)
    requires |a| >= 8 && n <= MAX_NUMERIC_TAIL
    requires forall i: nat :: 1 <= i <= n ==> Taken(ents, Candidate(a, i))
    ensures n <= 2 * |ents|
  {
    hide Candidate, Taken;
    TwoEach(ents, a, n);
    assert Blocked(ents, a, n) == UpTo(n);
  }

  ghost function UpTo(n: nat): (s: set<nat>)
    ensures |s| == n && forall i: nat :: i in s <==> 1 <= i <= n
  {
    if n == 0 then {} else UpTo(n - 1) + {n}
  }
}
