/** File names: what a short name may look like, the alias of a long name, the numeric tails that
    tell aliases apart, and the checksum that ties them together (source/directory.c, and the same
    checksum in source/wcfat.c).  Characters are their ASCII codes. */
module Names {

  type Text = seq<nat>

  const DOT: nat := 0x2E
  const SPACE: nat := 0x20
  const UNDERSCORE: nat := 0x5F
  const TILDE: nat := 0x7E
  const MAX_LFN_LENGTH: nat := 256
  const LFN_ENTRY_LENGTH: nat := 13
  const MAX_ALIAS_PRI_LENGTH: nat := 8
  const MAX_ALIAS_EXT_LENGTH: nat := 3
  const MAX_NUMERIC_TAIL: nat := 999999

  // The characters  \ / : ; * ? " < > | & + , = [ ] and space.
  const ILLEGAL_ALIAS_CHARACTERS: set<nat> :=
    {0x5C, 0x2F, 0x3A, 0x3B, 0x2A, 0x3F, 0x22, 0x3C, 0x3E, 0x7C, 0x26, 0x2B, 0x2C, 0x3D, 0x5B, 0x5D, 0x20}

  // The characters  \ / : * ? " < > |
  const ILLEGAL_LFN_CHARACTERS: set<nat> := {0x5C, 0x2F, 0x3A, 0x2A, 0x3F, 0x22, 0x3C, 0x3E, 0x7C}

  function Upper(c: nat): nat {
    if 0x61 <= c <= 0x7A then c - 0x20 else c
  }

  function Lower(c: nat): nat {
    if 0x41 <= c <= 0x5A then c + 0x20 else c
  }

  /** The codes of ASCII characters. */
  function Codes(s: string): (t: Text)
    ensures |t| == |s| && forall i :: 0 <= i < |s| ==> t[i] == s[i] as nat
  {
    seq(|s|, i requires 0 <= i < |s| => s[i] as nat)
  }

  /** Upper and lower case, letter by letter; nothing else changes. */
  lemma LetterCases(i: nat, c: nat)
    requires i < 26
    ensures Upper("abcdefghijklmnopqrstuvwxyz"[i] as nat) == "ABCDEFGHIJKLMNOPQRSTUVWXYZ"[i] as nat
    ensures Lower("ABCDEFGHIJKLMNOPQRSTUVWXYZ"[i] as nat) == "abcdefghijklmnopqrstuvwxyz"[i] as nat
    ensures c < 'a' as nat || c > 'z' as nat ==> Upper(c) == c
    ensures c < 'A' as nat || c > 'Z' as nat ==> Lower(c) == c
  {
  }

  /** Equal up to the case of letters. */
  predicate SameName(s: Text, t: Text) {
    |s| == |t| && forall i :: 0 <= i < |s| ==> Lower(s[i]) == Lower(t[i])
  }

  lemma SameNameTrans(s: Text, t: Text, u: Text)
    requires SameName(s, t) && SameName(t, u)
    ensures SameName(s, u) && SameName(t, s)
  {
  }

  // ---- long names ----

  predicate Ascii(s: Text) {
    forall i :: 0 <= i < |s| ==> 0x20 <= s[i] < 0x80
  }

  /** A name that can be stored: printable ASCII without the characters a long name may not have. */
  predicate ValidLfn(name: Text) {
    |name| < MAX_LFN_LENGTH && forall i :: 0 <= i < |name| ==>
      0x20 <= name[i] < 0x80 && name[i] !in ILLEGAL_LFN_CHARACTERS
  }

  /** The characters a long name may not have. */
  lemma RefusedCharacters(c: nat)
    ensures c in ILLEGAL_LFN_CHARACTERS <==> c in Codes("\\/:*?\"<>|")
  {
    var t := Codes("\\/:*?\"<>|");
    assert |t| == 9 && t[0] == 0x5C && t[1] == 0x2F && t[2] == 0x3A && t[3] == 0x2A && t[4] == 0x3F && t[5] == 0x22;
    assert t[6] == 0x3C && t[7] == 0x3E && t[8] == 0x7C;
  }

  /** The units a long name takes, -1 for a name that cannot be one. */
  method LfnLength(name: Text) returns (r: int)
    requires forall i :: 0 <= i < |name| ==> name[i] < 0x80
    ensures r == if ValidLfn(name) then |name| else -1
  {
    var i := 0;
    while i < |name|
      invariant 0 <= i <= |name|
      invariant forall k :: 0 <= k < i ==> 0x20 <= name[k] && name[k] !in ILLEGAL_LFN_CHARACTERS
    {
      if name[i] in ILLEGAL_LFN_CHARACTERS || name[i] < 0x20 { return -1; }
      i := i + 1;
    }
    r := if |name| >= MAX_LFN_LENGTH then -1 else |name|;
  }

  // ---- aliases ----

  /** A character an alias takes over as it is. */
  predicate Clean(c: nat) {
    0x20 < c < 0x80 && c != DOT && Upper(c) == c && c !in ILLEGAL_ALIAS_CHARACTERS
  }

  predicate AllClean(s: Text) {
    forall i :: 0 <= i < |s| ==> Clean(s[i])
  }

  /** The character that stands for c, which is no space, in an alias. */
  function Oem(c: nat): nat {
    if Upper(c) in ILLEGAL_ALIAS_CHARACTERS then UNDERSCORE else Upper(c)
  }

  function FirstDot(s: Text): (p: nat)
    ensures p <= |s| && (p < |s| ==> s[p] == DOT) && forall i :: 0 <= i < p ==> s[i] != DOT
  {
    if s == [] || s[0] == DOT then 0 else 1 + FirstDot(s[1..])
  }

  function LastDot(s: Text): (p: nat)
    ensures p <= |s| && (p < |s| ==> s[p] == DOT) && forall i :: p < i < |s| ==> s[i] != DOT
    ensures p == |s| ==> forall i :: 0 <= i < |s| ==> s[i] != DOT
  {
    if s == [] then 0
    else
      var p := LastDot(s[1..]);
      if p < |s| - 1 then p + 1 else if s[0] == DOT then 0 else |s|
  }

  /** Up to eight clean characters, and up to three more behind a period. */
  predicate AliasShape(a: Text) {
    var p := FirstDot(a);
    && p <= MAX_ALIAS_PRI_LENGTH && AllClean(a[..p])
    && (p < |a| ==> AllClean(a[p + 1..]) && |a| <= p + 1 + MAX_ALIAS_EXT_LENGTH)
  }

  /** A name that is its own alias, but for a period at its end. */
  predicate ShortForm(s: Text) {
    AliasShape(s) && (s != [] ==> s[0] != DOT)
  }

  function WithoutFinalDot(s: Text): Text {
    if s != [] && s[|s| - 1] == DOT then s[..|s| - 1] else s
  }

  lemma OemIsClean(c: nat)
    requires 0x20 <= c < 0x80 && c != DOT
    ensures Clean(Oem(c)) && (Oem(c) == c <==> Clean(c))
  {
  }

  function LeadingDots(s: Text): (n: nat)
    ensures n <= |s| && (n < |s| ==> s[n] != DOT) && forall i :: 0 <= i < n ==> s[i] == DOT
  {
    if s == [] || s[0] != DOT then 0 else 1 + LeadingDots(s[1..])
  }

  /** The characters of s that go into an alias: all but the spaces, upper-cased and mapped. */
  function Squeezed(s: Text): (r: Text)
    ensures |r| <= |s|
  {
    if s == [] then [] else Squeezed(s[..|s| - 1]) + (if s[|s| - 1] == SPACE then [] else [Oem(s[|s| - 1])])
  }

  function AtMost(s: Text, n: nat): (r: Text)
    ensures |r| <= n && r <= s
  {
    if |s| <= n then s else s[..n]
  }

  /** What is between the leading periods and the next one. */
  function Stem(name: Text): Text {
    var rest := name[LeadingDots(name)..];
    rest[..FirstDot(rest)]
  }

  /** The first three characters behind the last period. */
  function Extension(name: Text): Text {
    if LastDot(name) + 1 < |name| then AtMost(name[LastDot(name) + 1..], MAX_ALIAS_EXT_LENGTH) else []
  }

  /** The alias of a name: eight characters of the stem, and behind a period what the extension has. */
  function AliasOf(name: Text): Text {
    AtMost(Squeezed(Stem(name)), MAX_ALIAS_PRI_LENGTH)
      + if LastDot(name) + 1 < |name| then [DOT] + Squeezed(Extension(name)) else []
  }

  lemma SqueezedPush(s: Text, n: nat)
    requires n < |s|
    ensures Squeezed(s[..n + 1]) == Squeezed(s[..n]) + (if s[n] == SPACE then [] else [Oem(s[n])])
  {
    assert s[..n + 1][..n] == s[..n];
  }

  lemma {:induction false} SqueezedPrefix(s: Text, n: nat)
    requires n <= |s|
    ensures Squeezed(s[..n]) <= Squeezed(s)
    decreases |s| - n
  {
    if n == |s| {
      assert s[..n] == s;
    } else {
      SqueezedPrefix(s, n + 1);
      SqueezedPush(s, n);
    }
  }

  lemma FirstDotIs(s: Text, p: nat)
    requires p <= |s| && (p < |s| ==> s[p] == DOT) && forall i :: 0 <= i < p ==> s[i] != DOT
    ensures FirstDot(s) == p
  {
  }

  lemma LastDotIs(s: Text, p: nat)
    requires p < |s| && s[p] == DOT && forall i :: p < i < |s| ==> s[i] != DOT
    ensures LastDot(s) == p
  {
  }

  // ---- which letters an alias has ----

  /** Of the characters a long name may have, these become an underscore; all others stay, in upper case. */
  lemma MappedCharacters(c: nat)
    requires 0x20 < c < 0x80 && c !in ILLEGAL_LFN_CHARACTERS
    ensures c in Codes("&+,;=[]") ==> Oem(c) == '_' as nat
    ensures c !in Codes("&+,;=[]") ==> Oem(c) == Upper(c) && Lower(Oem(c)) == Lower(c)
  {
    var t := Codes("&+,;=[]");
    assert |t| == 7 && t[0] == 0x26 && t[1] == 0x2B && t[2] == 0x2C && t[3] == 0x3B && t[4] == 0x3D && t[5] == 0x5B;
    assert t[6] == 0x5D;
  }

  function Unspaced(s: Text): (r: Text) {
    if s == [] then [] else Unspaced(s[..|s| - 1]) + (if s[|s| - 1] == ' ' as nat then [] else [s[|s| - 1]])
  }

  /** What goes into an alias are the characters of the name that are no spaces, one for one: those
      seven as underscores, all others as they are, up to case. */
  lemma {:induction false} SqueezedLetters(s: Text)
    requires forall i :: 0 <= i < |s| ==> 0x20 <= s[i] < 0x80 && s[i] !in ILLEGAL_LFN_CHARACTERS
    ensures |Squeezed(s)| == |Unspaced(s)|
    ensures forall i :: 0 <= i < |Squeezed(s)| ==>
              if Unspaced(s)[i] in Codes("&+,;=[]") then Squeezed(s)[i] == '_' as nat
              else Squeezed(s)[i] == Upper(Unspaced(s)[i])
  {
    hide Oem, Upper;
    if s != [] {
      SqueezedLetters(s[..|s| - 1]);
      if s[|s| - 1] != SPACE { MappedCharacters(s[|s| - 1]); }
    }
  }

  /** The name with all letters in upper case. */
  function Uppered(s: Text): (r: Text)
    ensures |r| == |s| && SameName(r, s) && forall i :: 0 <= i < |s| ==> r[i] == Upper(s[i])
  {
    seq(|s|, i requires 0 <= i < |s| => Upper(s[i]))
  }

  lemma {:induction false} SqueezedUpper(s: Text)
    requires AllClean(Uppered(s))
    ensures Squeezed(s) == Uppered(s)
  {
    if s != [] {
      var k := |s| - 1;
      CleanPrefix(Uppered(s), k, |s|);
      assert Uppered(s)[..k] == Uppered(s[..k]);
      assert Uppered(s)[..|s|] == Uppered(s);
      SqueezedUpper(s[..k]);
      assert Clean(Uppered(s)[k]);
    }
  }

  lemma SameDots(s: Text)
    ensures FirstDot(Uppered(s)) == FirstDot(s)
  {
    FirstDotIs(Uppered(s), FirstDot(s));
  }

  /** A name that is in short form once its letters are in upper case has just that as its alias, but
      for a final period. */
  lemma {:induction false} UpperCasedAlias(name: Text)
    requires ShortForm(Uppered(name))
    ensures AliasOf(name) == WithoutFinalDot(Uppered(name)) && SameName(AliasOf(name), WithoutFinalDot(name))
  {
    hide Squeezed, LastDot, FirstDot, AllClean, AliasOf, Stem, ShortForm, Uppered;
    var u, p := Uppered(name), FirstDot(name);
    SameDots(name);
    UpperParts(name, p);
    StemIs(name);
    var ext := if p < |name| then u[p + 1..] else [];
    if p < |name| {
      LastDotIs(name, p);
      assert name[p + 1..][..|name| - p - 1] == name[p + 1..];
    } else {
      assert name[..p] == name && u[..p] == u;
    }
    AliasParts(name, u[..p], ext);
    assert p < |name| ==> u == u[..p] + [DOT] + ext;
    assert p < |name| ==> WithoutFinalDot(u) == if ext == [] then u[..p] else u;
  }

  lemma {:induction false} StemIs(name: Text)
    requires name != [] ==> name[0] != DOT
    ensures Stem(name) == name[..FirstDot(name)]
  {
    hide FirstDot;
    LeadingIs(name, 0);
    assert name[0..] == name;
  }

  lemma {:induction false} UpperParts(name: Text, p: nat)
    requires ShortForm(Uppered(name)) && p == FirstDot(name) == FirstDot(Uppered(name))
    ensures p <= 8 && Squeezed(name[..p]) == Uppered(name)[..p] && (name != [] ==> name[0] != DOT)
    ensures p < |name| ==>
              && |name| - (p + 1) <= 3 && (forall i :: p < i < |name| ==> name[i] != DOT)
              && Squeezed(name[p + 1..]) == Uppered(name)[p + 1..]
    ensures forall i :: 0 <= i < p ==> name[i] != DOT
  {
    hide Squeezed, AllClean;
    var u := Uppered(name);
    assert Uppered(name[..p]) == u[..p];
    SqueezedUpper(name[..p]);
    if p < |name| {
      assert Uppered(name[p + 1..]) == u[p + 1..];
      SqueezedUpper(name[p + 1..]);
      CleanHasNoDot(u[p + 1..]);
      forall i | p < i < |name| ensures name[i] != DOT { assert u[p + 1..][i - p - 1] == u[i]; }
    }
  }

  /** For example. */
  lemma {:induction false} HelloAlias()
    ensures AliasOf(Codes("hello.txt")) == Codes("HELLO.TXT")
  {
    hide AliasOf, ShortForm, FirstDot, Uppered, WithoutFinalDot, SameName;
    var name, u := Codes("hello.txt"), Codes("HELLO.TXT");
    UpperHello(name, u);
    ShortHello(u);
    UpperCasedAlias(name);
    assert WithoutFinalDot(u) == u by { NoFinalDot(u); }
  }

  lemma NoFinalDot(u: Text)
    requires u != [] && u[|u| - 1] != DOT
    ensures WithoutFinalDot(u) == u
  {
  }

  lemma {:induction false} UpperHello(name: Text, u: Text)
    requires name == Codes("hello.txt") && u == Codes("HELLO.TXT")
    ensures Uppered(name) == u
  {
  }

  lemma {:induction false} ShortHello(u: Text)
    requires u == Codes("HELLO.TXT")
    ensures ShortForm(u)
  {
    hide FirstDot;
    FirstDotIs(u, 5);
    assert |u[6..]| == 3 && u[6..][0] == 'T' as nat && u[6..][1] == 'X' as nat && u[6..][2] == 'T' as nat;
  }

  /** What the scan of the stem collected is the primary part of the alias. */
  lemma PrimaryIs(lfn: Text, start: nat, stopped: nat, primary: Text)
    requires && start <= stopped <= |lfn|
             && (forall i :: 0 <= i < start ==> lfn[i] == DOT)
             && (start < |lfn| ==> lfn[start] != DOT)
    requires forall i :: start <= i < stopped ==> lfn[i] != DOT
    requires stopped < |lfn| && lfn[stopped] != DOT ==> |primary| == MAX_ALIAS_PRI_LENGTH
    requires primary == Squeezed(lfn[start..stopped]) && |primary| <= MAX_ALIAS_PRI_LENGTH
    ensures primary == AtMost(Squeezed(Stem(lfn)), MAX_ALIAS_PRI_LENGTH)
  {
    hide Squeezed;
    LeadingIs(lfn, start);
    var rest := lfn[start..];
    var p, n := FirstDot(rest), stopped - start;
    assert forall i :: 0 <= i < |rest| ==> rest[i] == lfn[start + i];
    assert n <= p;
    assert lfn[start..stopped] == rest[..n] == rest[..p][..n];
    SqueezedPrefix(rest[..p], n);
    if n < p { assert rest[n] == lfn[stopped]; }
  }

  lemma {:induction false} AliasParts(lfn: Text, primary: Text, ext: Text)
    requires primary == AtMost(Squeezed(Stem(lfn)), MAX_ALIAS_PRI_LENGTH)
    requires LastDot(lfn) + 1 < |lfn| ==> ext == Squeezed(AtMost(lfn[LastDot(lfn) + 1..], MAX_ALIAS_EXT_LENGTH))
    ensures AliasOf(lfn) == if LastDot(lfn) + 1 < |lfn| then primary + [DOT] + ext else primary
  {
    hide Squeezed, Stem, LastDot, AtMost, FirstDot, LeadingDots;
  }

  lemma LeadingIs(s: Text, n: nat)
    requires n <= |s| && (n < |s| ==> s[n] != DOT) && forall i :: 0 <= i < n ==> s[i] == DOT
    ensures LeadingDots(s) == n
  {
  }

  /** Nothing of the name can go into an alias: between leading periods and the next period there are
      only spaces, and no extension follows. */
  predicate LeavesNothing(s: Text) {
    && (forall i :: LeadingDots(s) <= i < LeadingDots(s) + FirstDot(s[LeadingDots(s)..]) ==> s[i] == SPACE)
    && LastDot(s) + 1 >= |s|
  }

  /** Makes an alias.  The result is 0 exactly for a name in short form, which is taken over as it
      is, and for a name of which nothing is left; otherwise it is the length of the alias. */
  method CreateAlias(lfn: Text) returns (r: int, alias: Text)
    requires Ascii(lfn)
    ensures alias == AliasOf(lfn)
    ensures r == if ShortForm(lfn) then 0 else |alias|
    ensures ShortForm(lfn) ==> alias == WithoutFinalDot(lfn)
  {
    var lossyConversion, lfnPos := StripDots(lfn);
    hide ShortForm, Lossless, Stopped, Squeezed, Stem, AliasOf, AtMost, WithoutFinalDot, LastDot, FirstDot, AllClean;
    ghost var start := lfnPos;
    lfnPos, alias, lossyConversion := PrimaryPart(lfn, lfnPos, lossyConversion);
    ghost var primary, lossy := alias, lossyConversion;
    StoppedShort(lfn, start, lfnPos, primary, lossy);
    PrimaryIs(lfn, start, lfnPos, primary);
    WhenShort(lfn, start, lfnPos, primary, lossy);
    if lfnPos < |lfn| && lfn[lfnPos] != DOT {
      lossyConversion := true;
    }
    var lfnExt, lossyExt := LastDot(lfn), false;
    if lfnExt < |lfn| && lfnExt != FirstDot(lfn) {
      lossyConversion := true;
    }
    if lfnExt + 1 < |lfn| {
      var ext;
      ext, lossyExt := ExtensionPart(lfn[lfnExt + 1..]);
      AliasParts(lfn, primary, ext);
      alias := alias + [DOT] + ext;
      lossyConversion := lossyConversion || lossyExt;
    } else {
      AliasParts(lfn, primary, []);
    }
    FlagIs(lfn, lfnPos, lossy, lossyExt, lossyConversion);
    r := if lossyConversion then |alias| else 0;
  }

  lemma StoppedShort(lfn: Text, start: nat, stopped: nat, primary: Text, lossy: bool)
    requires Stopped(lfn, start, stopped, primary, lossy)
    ensures start <= stopped <= |lfn| && |primary| <= MAX_ALIAS_PRI_LENGTH
    ensures (forall i :: 0 <= i < start ==> lfn[i] == DOT) && (start < |lfn| ==> lfn[start] != DOT)
    ensures forall i :: start <= i < stopped ==> lfn[i] != DOT
    ensures stopped < |lfn| && lfn[stopped] != DOT ==> |primary| == MAX_ALIAS_PRI_LENGTH
  {
  }

  lemma FlagIs(lfn: Text, stopped: nat, lossy: bool, lossyExt: bool, flag: bool)
    requires stopped <= |lfn|
    requires var d := LastDot(lfn);
             && (d + 1 < |lfn| ==> (!lossyExt <==> |lfn| - (d + 1) <= MAX_ALIAS_EXT_LENGTH && AllClean(lfn[d + 1..])))
             && (flag <==>
                 || lossy
                 || (stopped < |lfn| && lfn[stopped] != DOT)
                 || (d < |lfn| && d != FirstDot(lfn))
                 || (d + 1 < |lfn| && lossyExt))
    ensures !flag <==> Lossless(lfn, stopped, lossy)
  {
  }

  /** The leading periods. */
  method StripDots(lfn: Text) returns (lossyConversion: bool, lfnPos: nat)
    ensures lfnPos <= |lfn| && (lossyConversion <==> lfnPos > 0)
    ensures (forall i :: 0 <= i < lfnPos ==> lfn[i] == DOT) && (lfnPos < |lfn| ==> lfn[lfnPos] != DOT)
  {
    lossyConversion, lfnPos := false, 0;
    while lfnPos < |lfn| && lfn[lfnPos] == DOT
      invariant 0 <= lfnPos <= |lfn| && (lossyConversion <==> lfnPos > 0)
      invariant forall i :: 0 <= i < lfnPos ==> lfn[i] == DOT
    {
      lfnPos, lossyConversion := lfnPos + 1, true;
    }
  }

  lemma LastOfDotted(primary: Text, ext: Text)
    requires forall i :: 0 <= i < |ext| ==> ext[i] != DOT
    ensures (primary + [DOT] + ext)[|primary| + |ext|] == DOT <==> ext == []
  {
    var a := primary + [DOT] + ext;
    if ext != [] { assert a[|primary| + |ext|] == ext[|ext| - 1]; }
  }

  /** The first three characters of the extension are spaces: the alias keeps the period alone. */
  predicate BlankExtension(s: Text) {
    var d := LastDot(s);
    d + 1 < |s| && forall i :: d < i < |s| && i <= d + MAX_ALIAS_EXT_LENGTH ==> s[i] == SPACE
  }

  lemma {:induction false} SqueezedClean(s: Text)
    requires forall i :: 0 <= i < |s| ==> 0x20 <= s[i] < 0x80 && s[i] != DOT
    ensures AllClean(Squeezed(s)) && (Squeezed(s) == [] <==> forall i :: 0 <= i < |s| ==> s[i] == SPACE)
  {
    hide Clean, Oem;
    if s != [] {
      var n := |s| - 1;
      var front, c := Squeezed(s[..n]), s[n];
      SqueezedClean(s[..n]);
      OemIsClean(c);
      assert forall i :: 0 <= i < n ==> s[..n][i] == s[i];
      if c == SPACE {
        assert Squeezed(s) == front;
      } else {
        assert Squeezed(s) == front + [Oem(c)];
      }
    }
  }

  /** The alias of a name is in 8.3 form.  It is empty exactly when nothing of the name is left, ends
      in a period exactly for a blank extension, and starts with one only if the stem starts with a space. */
  lemma {:induction false} AliasFacts(name: Text)
    requires Ascii(name)
    ensures AliasShape(AliasOf(name))
    ensures AliasOf(name) == [] <==> LeavesNothing(name)
    ensures AliasOf(name) != [] && AliasOf(name)[|AliasOf(name)| - 1] == DOT <==> BlankExtension(name)
    ensures AliasOf(name) != [] && AliasOf(name)[0] == DOT ==>
              LeadingDots(name) < |name| && name[LeadingDots(name)] == SPACE
  {
    hide AliasShape, AllClean, LeavesNothing, BlankExtension, Squeezed, Stem, LastDot, Extension;
    var primary, ext := AtMost(Squeezed(Stem(name)), MAX_ALIAS_PRI_LENGTH), Squeezed(Extension(name));
    StemFacts(name, primary);
    ExtensionFacts(name, ext);
    if LastDot(name) + 1 < |name| {
      assert AliasOf(name) == primary + [DOT] + ext;
      Dotted(primary, ext);
      CleanHasNoDot(ext);
      LastOfDotted(primary, ext);
    } else {
      assert AliasOf(name) == primary;
      Dotless(primary);
      CleanHasNoDot(primary);
    }
  }

  lemma {:induction false} StemFacts(name: Text, primary: Text)
    requires Ascii(name) && primary == AtMost(Squeezed(Stem(name)), MAX_ALIAS_PRI_LENGTH)
    ensures AllClean(primary)
    ensures primary == [] && LastDot(name) + 1 >= |name| <==> LeavesNothing(name)
    ensures primary == [] && LastDot(name) + 1 < |name| ==>
              LeadingDots(name) < |name| && name[LeadingDots(name)] == SPACE
    ensures primary != [] ==> primary[0] != DOT
  {
    hide Squeezed, LastDot;
    var n := LeadingDots(name);
    var rest, stem := name[n..], Stem(name);
    SqueezedClean(stem);
    CleanPrefix(Squeezed(stem), |primary|, |Squeezed(stem)|);
    assert primary == Squeezed(stem)[..|primary|];
    CleanHasNoDot(primary);
    if n == |name| && name != [] { assert name[|name| - 1] == DOT; }
    if n < |name| { assert rest[0] == name[n]; }
    assert forall i :: n <= i < n + |stem| ==> stem[i - n] == name[i];
    assert forall i :: 0 <= i < |stem| ==> stem[i] == name[n + i];
  }

  lemma {:induction false} ExtensionFacts(name: Text, ext: Text)
    requires Ascii(name) && ext == Squeezed(Extension(name))
    ensures AllClean(ext) && |ext| <= MAX_ALIAS_EXT_LENGTH
    ensures LastDot(name) + 1 < |name| ==> (ext == [] <==> BlankExtension(name))
    ensures LastDot(name) + 1 >= |name| ==> !BlankExtension(name)
  {
    hide Squeezed, LastDot;
    SqueezedClean(Extension(name));
    var d := LastDot(name);
    if d + 1 < |name| {
      var e := Extension(name);
      assert forall i :: d < i < |name| && i <= d + MAX_ALIAS_EXT_LENGTH ==> e[i - d - 1] == name[i];
      assert forall i :: 0 <= i < |e| ==> e[i] == name[d + 1 + i];
    }
  }

  lemma Dotted(primary: Text, ext: Text)
    requires AllClean(primary) && |primary| <= MAX_ALIAS_PRI_LENGTH && AllClean(ext) && |ext| <= MAX_ALIAS_EXT_LENGTH
    ensures FirstDot(primary + [DOT] + ext) == |primary| && AliasShape(primary + [DOT] + ext)
  {
    var a := primary + [DOT] + ext;
    assert a[|primary|] == DOT;
    assert forall i :: 0 <= i < |primary| ==> a[i] == primary[i];
    assert a[..|primary|] == primary && a[|primary| + 1..] == ext;
  }

  lemma Dotless(a: Text)
    requires AllClean(a) && |a| <= MAX_ALIAS_PRI_LENGTH
    ensures FirstDot(a) == |a| && AliasShape(a)
  {
  }

  /** Where and how the primary part stopped. */
  ghost predicate Stopped(lfn: Text, start: nat, stopped: nat, primary: Text, lossy: bool) {
    && start <= stopped <= |lfn| && |primary| <= MAX_ALIAS_PRI_LENGTH
    && (forall i :: 0 <= i < start ==> lfn[i] == DOT) && (start < |lfn| ==> lfn[start] != DOT)
    && (stopped < |lfn| ==> lfn[stopped] == DOT || |primary| == MAX_ALIAS_PRI_LENGTH)
    && (forall i :: start <= i < stopped ==> lfn[i] != DOT)
    && (!lossy <==> start == 0 && AllClean(lfn[..stopped]))
    && (!lossy ==> primary == lfn[..stopped])
  }

  /** What the code has found out when it has set no flag. */
  ghost predicate Lossless(lfn: Text, stopped: nat, lossy: bool) {
    var d := LastDot(lfn);
    && !lossy && (stopped < |lfn| ==> lfn[stopped] == DOT) && (d < |lfn| ==> d == FirstDot(lfn))
    && (d + 1 < |lfn| ==> |lfn| - (d + 1) <= MAX_ALIAS_EXT_LENGTH && AllClean(lfn[d + 1..]))
  }

  lemma WhenShort(lfn: Text, start: nat, stopped: nat, primary: Text, lossy: bool)
    requires Stopped(lfn, start, stopped, primary, lossy)
    ensures ShortForm(lfn) <==> Lossless(lfn, stopped, lossy)
    ensures ShortForm(lfn) ==>
              WithoutFinalDot(lfn)
              == if LastDot(lfn) + 1 < |lfn| then primary + [DOT] + lfn[LastDot(lfn) + 1..] else primary
  {
    hide ShortForm;
    if ShortForm(lfn) {
      ShortIsLossless(lfn, start, stopped, primary, lossy);
      ShortIsItself(lfn, start, stopped, primary, lossy);
    }
    if Lossless(lfn, stopped, lossy) {
      LosslessIsShort(lfn, start, stopped, primary, lossy);
    }
  }

  lemma ShortIsItself(lfn: Text, start: nat, stopped: nat, primary: Text, lossy: bool)
    requires Stopped(lfn, start, stopped, primary, lossy) && Lossless(lfn, stopped, lossy) && stopped == FirstDot(lfn)
    ensures WithoutFinalDot(lfn)
            == if LastDot(lfn) + 1 < |lfn| then primary + [DOT] + lfn[LastDot(lfn) + 1..] else primary
  {
    hide AllClean, LastDot, FirstDot;
    var d := LastDot(lfn);
    if d < |lfn| {
      SplitAt(lfn, d);
      assert d + 1 < |lfn| ==> lfn[|lfn| - 1] != DOT;
    } else {
      assert lfn == lfn[..stopped];
    }
  }

  lemma SplitAt(s: Text, d: nat)
    requires d < |s|
    ensures s == s[..d] + [s[d]] + s[d + 1..] && (d + 1 == |s| ==> s[..|s| - 1] == s[..d])
  {
  }

  lemma ShortIsLossless(lfn: Text, start: nat, stopped: nat, primary: Text, lossy: bool)
    requires Stopped(lfn, start, stopped, primary, lossy) && ShortForm(lfn)
    ensures Lossless(lfn, stopped, lossy) && stopped == FirstDot(lfn)
  {
    var p, d := FirstDot(lfn), LastDot(lfn);
    assert stopped <= p;
    CleanPrefix(lfn, stopped, p);
    if p < |lfn| {
      forall i | p < i < |lfn| ensures lfn[i] != DOT { assert Clean(lfn[p + 1..][i - p - 1]); }
    }
  }

  lemma LosslessIsShort(lfn: Text, start: nat, stopped: nat, primary: Text, lossy: bool)
    requires Stopped(lfn, start, stopped, primary, lossy) && Lossless(lfn, stopped, lossy)
    ensures ShortForm(lfn)
  {
    assert FirstDot(lfn) == stopped;
  }

  lemma CleanPrefix(s: Text, n: nat, m: nat)
    requires n <= m <= |s| && AllClean(s[..m])
    ensures AllClean(s[..n])
  {
    assert forall i :: 0 <= i < n ==> s[..n][i] == s[..m][i];
  }

  /** The characters before a period, spaces left out, as far as eight go. */
  method PrimaryPart(lfn: Text, start: nat, lossy: bool) returns (lfnPos: nat, alias: Text, lossyConversion: bool)
    requires start <= |lfn| && (lossy <==> start > 0) && Ascii(lfn)
    requires (forall i :: 0 <= i < start ==> lfn[i] == DOT) && (start < |lfn| ==> lfn[start] != DOT)
    ensures Stopped(lfn, start, lfnPos, alias, lossyConversion)
    ensures start <= lfnPos <= |lfn| && alias == Squeezed(lfn[start..lfnPos])
  {
    lfnPos, alias, lossyConversion := start, [], lossy;
    while |alias| < MAX_ALIAS_PRI_LENGTH && lfnPos < |lfn| && lfn[lfnPos] != DOT
      invariant start <= lfnPos <= |lfn| && |alias| <= MAX_ALIAS_PRI_LENGTH
      invariant forall i :: start <= i < lfnPos ==> lfn[i] != DOT
      invariant !lossyConversion <==> start == 0 && AllClean(lfn[..lfnPos])
      invariant !lossyConversion ==> alias == lfn[..lfnPos]
      invariant alias == Squeezed(lfn[start..lfnPos])
      decreases |lfn| - lfnPos
    {
      var c := lfn[lfnPos];
      OemIsClean(c);
      assert AllClean(lfn[..lfnPos + 1]) <==> AllClean(lfn[..lfnPos]) && Clean(c) by { CleanPush(lfn, lfnPos); }
      assert lfn[..lfnPos + 1] == lfn[..lfnPos] + [c];
      OneMore(lfn, start, lfnPos);
      if Upper(c) != c || Upper(c) in ILLEGAL_ALIAS_CHARACTERS { lossyConversion := true; }
      if Upper(c) != SPACE { alias := alias + [Oem(c)]; }
      lfnPos := lfnPos + 1;
    }
  }

  lemma OneMore(s: Text, a: nat, b: nat)
    requires a <= b < |s|
    ensures Squeezed(s[a..b + 1]) == Squeezed(s[a..b]) + (if s[b] == SPACE then [] else [Oem(s[b])])
  {
    assert s[a..b + 1][..b - a] == s[a..b];
  }

  lemma CleanPush(s: Text, n: nat)
    requires n < |s|
    ensures AllClean(s[..n + 1]) <==> AllClean(s[..n]) && Clean(s[n])
  {
    assert s[..n + 1] == s[..n] + [s[n]];
    if AllClean(s[..n + 1]) {
      assert forall i :: 0 <= i < n ==> s[..n][i] == s[..n + 1][i];
      assert s[..n + 1][n] == s[n];
    }
  }

  /** The first three characters of an extension, spaces left out. */
  method ExtensionPart(lfnExt: Text) returns (ext: Text, lossyConversion: bool)
    requires Ascii(lfnExt)
    requires forall i :: 0 <= i < |lfnExt| ==> lfnExt[i] != DOT
    ensures !lossyConversion <==> |lfnExt| <= MAX_ALIAS_EXT_LENGTH && AllClean(lfnExt)
    ensures !lossyConversion ==> ext == lfnExt
    ensures ext == Squeezed(AtMost(lfnExt, MAX_ALIAS_EXT_LENGTH))
  {
    ext, lossyConversion := [], false;
    var k := 0;
    while k < MAX_ALIAS_EXT_LENGTH && k < |lfnExt|
      invariant 0 <= k <= MAX_ALIAS_EXT_LENGTH && k <= |lfnExt|
      invariant !lossyConversion <==> AllClean(lfnExt[..k])
      invariant !lossyConversion ==> ext == lfnExt[..k]
      invariant ext == Squeezed(lfnExt[..k])
    {
      var c := lfnExt[k];
      OemIsClean(c);
      CleanPush(lfnExt, k);
      SqueezedPush(lfnExt, k);
      assert lfnExt[..k + 1] == lfnExt[..k] + [c];
      if Upper(c) != c || Upper(c) in ILLEGAL_ALIAS_CHARACTERS { lossyConversion := true; }
      if Upper(c) != SPACE { ext := ext + [Oem(c)]; }
      k := k + 1;
    }
    if k < |lfnExt| { lossyConversion := true; } else { assert lfnExt[..k] == lfnExt; }
  }

  // ---- short names in a slot ----

  function Pad(s: Text, n: nat): (r: Text)
    requires |s| <= n
    ensures |r| == n && r[..|s|] == s && forall i :: |s| <= i < n ==> r[i] == SPACE
  {
    s + seq(n - |s|, i => SPACE)
  }

  /** The eleven characters of an alias in a slot. */
  function ShortSlot(a: Text): (r: Text)
    requires AliasShape(a)
    ensures |r| == 11
  {
    var p := FirstDot(a);
    Pad(a[..p], 8) + Pad(if p < |a| then a[p + 1..] else [], 3)
  }

  method CopyAlias(alias: Text) returns (entryData: Text)
    requires AliasShape(alias)
    ensures entryData == ShortSlot(alias)
  {
    ghost var p := FirstDot(alias);
    entryData := [];
    var i := 0;
    while i < 8 && i < |alias| && alias[i] != DOT
      invariant 0 <= i <= p && entryData == alias[..i]
    {
      entryData := entryData + [alias[i]];
      i := i + 1;
    }
    while |entryData| < 8
      invariant p <= |entryData| <= 8 && entryData[..p] == alias[..p] && forall k :: p <= k < |entryData| ==>
                  entryData[k] == SPACE
    {
      entryData := entryData + [SPACE];
    }
    assert entryData == Pad(alias[..p], 8);
    if i < |alias| && alias[i] == DOT {
      i := i + 1;
      while i < |alias| && |entryData| < 11
        invariant p + 1 <= i <= |alias| && entryData == Pad(alias[..p], 8) + alias[p + 1..i]
      {
        entryData := entryData + [alias[i]];
        i := i + 1;
      }
    }
    ghost var ext := if p < |alias| then alias[p + 1..] else [];
    assert entryData == Pad(alias[..p], 8) + ext;
    while |entryData| < 11
      invariant 8 + |ext| <= |entryData| <= 11 && entryData[..8 + |ext|] == Pad(alias[..p], 8) + ext
      invariant forall k :: 8 + |ext| <= k < |entryData| ==> entryData[k] == SPACE
    {
      entryData := entryData + [SPACE];
    }
    PaddedTail(entryData, Pad(alias[..p], 8), ext);
  }

  lemma PaddedTail(t: Text, base: Text, ext: Text)
    requires && |t| == 11
             && |base| == 8
             && |ext| <= 3
             && t[..8 + |ext|] == base + ext
             && forall k :: 8 + |ext| <= k < 11 ==>
               t[k] == SPACE
    ensures t == base + Pad(ext, 3)
  {
    forall k | 0 <= k < 11 ensures t[k] == (base + Pad(ext, 3))[k] {
      if k < 8 + |ext| { assert t[k] == t[..8 + |ext|][k]; }
    }
  }

  function UntilSpace(s: Text): (r: Text)
    ensures r <= s && (|r| < |s| ==> s[|r|] == SPACE) && forall i :: 0 <= i < |r| ==> r[i] != SPACE
  {
    if s == [] || s[0] == SPACE then [] else [s[0]] + UntilSpace(s[1..])
  }

  function Cased(s: Text, lower: bool): (r: Text)
    ensures |r| == |s| && SameName(r, s)
  {
    seq(|s|, i requires 0 <= i < |s| => if lower then Lower(s[i]) else s[i])
  }

  /** The name that a slot's first eleven characters and case flags stand for. */
  function AliasText(name: Text, lowerBase: bool, lowerExt: bool): Text
    requires |name| == 11
  {
    if name[0] == DOT then (if name[1] == DOT then [DOT, DOT] else [DOT])
    else
      var base, ext := UntilSpace(name[..8]), UntilSpace(name[8..]);
      Cased(base, lowerBase) + (if ext == [] then [] else [DOT] + Cased(ext, lowerExt))
  }

  lemma UntilSpaceOfPad(s: Text, n: nat)
    requires |s| <= n && forall i :: 0 <= i < |s| ==> s[i] != SPACE
    ensures UntilSpace(Pad(s, n)) == s
  {
    if s != [] {
      UntilSpaceOfPad(s[1..], n - 1);
      assert Pad(s, n)[1..] == Pad(s[1..], n - 1);
    }
  }

  /** An alias written to a slot and read back is the same name, whatever the case flags, but for a
      period at its end, which a slot cannot hold. */
  lemma AliasRoundTrip(a: Text, lowerBase: bool, lowerExt: bool)
    requires AliasShape(a) && a != [] && a[0] != DOT
    ensures SameName(AliasText(ShortSlot(a), lowerBase, lowerExt), WithoutFinalDot(a))
    ensures !lowerBase && !lowerExt ==> AliasText(ShortSlot(a), false, false) == WithoutFinalDot(a)
  {
    hide AliasShape, UntilSpace, Cased, Pad, ShortSlot, WithoutFinalDot, Put;
    var p := FirstDot(a);
    var base, ext := a[..p], if p < |a| then a[p + 1..] else [];
    PartsOf(a);
    SlotParts(a, base, ext);
    ReadBack(ShortSlot(a), base, ext, lowerBase, lowerExt);
    ReadBack(ShortSlot(a), base, ext, false, false);
  }

  lemma ReadBack(t: Text, base: Text, ext: Text, lowerBase: bool, lowerExt: bool)
    requires |t| == 11 && t[0] != DOT && UntilSpace(t[..8]) == base && UntilSpace(t[8..]) == ext
    ensures SameName(AliasText(t, lowerBase, lowerExt), Put(base, ext))
    ensures !lowerBase && !lowerExt ==> AliasText(t, lowerBase, lowerExt) == Put(base, ext)
  {
    hide UntilSpace, Cased;
    Uncased(base);
    Uncased(ext);
    var b, e := Cased(base, lowerBase), Cased(ext, lowerExt);
    assert AliasText(t, lowerBase, lowerExt) == Put(b, e);
  }

  function Put(base: Text, ext: Text): Text {
    base + (if ext == [] then [] else [DOT] + ext)
  }

  lemma PartsOf(a: Text)
    requires AliasShape(a)
    ensures var p := FirstDot(a);
            var base, ext := a[..p], if p < |a| then a[p + 1..] else [];
            && |base| <= 8 && |ext| <= 3 && AllClean(base) && AllClean(ext) && WithoutFinalDot(a) == Put(base, ext)
            && ShortSlot(a) == Pad(base, 8) + Pad(ext, 3)
  {
    hide Pad;
    var p := FirstDot(a);
    if p < |a| {
      CleanHasNoDot(a[p + 1..]);
      WithoutDot(a, a[..p], a[p + 1..]);
    } else {
      assert a[..p] == a && a + [] == a;
      CleanHasNoDot(a);
    }
  }

  lemma WithoutDot(a: Text, base: Text, ext: Text)
    requires a == base + [DOT] + ext && forall i :: 0 <= i < |ext| ==> ext[i] != DOT
    ensures WithoutFinalDot(a) == Put(base, ext)
  {
    LastOfDotted(base, ext);
  }

  lemma CleanHasNoDot(s: Text)
    requires AllClean(s)
    ensures forall i :: 0 <= i < |s| ==> s[i] != DOT
  {
    assert forall i :: 0 <= i < |s| ==> Clean(s[i]);
  }

  lemma SlotParts(a: Text, base: Text, ext: Text)
    requires AliasShape(a) && |base| <= 8 && |ext| <= 3 && AllClean(base) && AllClean(ext)
    requires ShortSlot(a) == Pad(base, 8) + Pad(ext, 3) && base != []
    ensures && UntilSpace(ShortSlot(a)[..8]) == base
            && UntilSpace(ShortSlot(a)[8..]) == ext
            && ShortSlot(a)[0] == base[0] != DOT
  {
    var t := ShortSlot(a);
    assert t[..8] == Pad(base, 8) && t[8..] == Pad(ext, 3);
    assert forall i :: 0 <= i < |base| ==> Clean(base[i]);
    assert forall i :: 0 <= i < |ext| ==> Clean(ext[i]);
    UntilSpaceOfPad(base, 8);
    UntilSpaceOfPad(ext, 3);
    assert t[0] == t[..8][0];
  }

  lemma Uncased(s: Text)
    ensures Cased(s, false) == s
  {
  }

  // ---- checksum ----

  /** One step: rotate the sum right by a bit and add. */
  function Rotated(sum: nat, b: nat): (r: nat)
    ensures r < 0x100
  {
    ((if sum % 2 == 1 then 0x80 else 0) + sum / 2 + b) % 0x100
  }

  function Checksum(name: Text): (r: nat)
    ensures r < 0x100
  {
    if name == [] then 0 else Rotated(Checksum(name[..|name| - 1]), name[|name| - 1])
  }

  /** For example: of a single character, and of README.TXT. */
  lemma KnownSums(c: nat)
    requires c < 0x100
    ensures Checksum([c]) == c && Checksum(Codes("README  TXT")) == 0x73
  {
    hide Checksum;
    OneSum(c);
    var t := Codes("README  TXT");
    assert t[..0] == [];
    SumStep(t, 0, 0x00, 0x52);
    SumStep(t, 1, 0x52, 0x6E);
    SumStep(t, 2, 0x6E, 0x78);
    SumStep(t, 3, 0x78, 0x80);
    SumStep(t, 4, 0x80, 0x8D);
    SumStep(t, 5, 0x8D, 0x0B);
    SumStep(t, 6, 0x0B, 0xA5);
    SumStep(t, 7, 0xA5, 0xF2);
    SumStep(t, 8, 0xF2, 0xCD);
    SumStep(t, 9, 0xCD, 0x3E);
    SumStep(t, 10, 0x3E, 0x73);
    assert t[..11] == t;
  }

  lemma OneSum(c: nat)
    requires c < 0x100
    ensures Checksum([c]) == c && Checksum([]) == 0
  {
    assert [c][..0] == [];
  }

  lemma SumStep(t: Text, k: nat, before: nat, after: nat)
    requires k < |t| && Checksum(t[..k]) == before && after == Rotated(before, t[k])
    ensures Checksum(t[..k + 1]) == after
  {
    assert t[..k + 1][..k] == t[..k];
  }

  method AliasChecksum(entryData: Text) returns (sum: nat)
    requires |entryData| >= 11
    ensures sum == Checksum(entryData[..11])
  {
    sum := 0;
    var i := 0;
    while i < 11
      invariant 0 <= i <= 11 && sum == Checksum(entryData[..i])
    {
      assert entryData[..i + 1][..i] == entryData[..i];
      sum := Rotated(sum, entryData[i]);
      i := i + 1;
    }
  }

  /** crc4lfn: the same sum kept in the top byte of a 32-bit word. */
  method Crc4Lfn(name: Text) returns (r: nat)
    requires |name| >= 11 && forall i :: 0 <= i < 11 ==> name[i] < 0x100
    ensures r == Checksum(name[..11])
  {
    var sum := 0;
    var i := 0;
    while i < 11
      invariant 0 <= i <= 11 && 0 <= sum < 0x1_0000_0000 && sum / 0x100_0000 == Checksum(name[..i])
    {
      assert name[..i + 1][..i] == name[..i];
      TopByte(sum, name[i]);
      sum := (sum / 2 + name[i] * 0x100_0000 + (if sum / 0x100_0000 % 2 == 1 then 0x8000_0000 else 0)) % 0x1_0000_0000;
      i := i + 1;
    }
    r := sum / 0x100_0000;
  }

  /** What moves below the top byte never carries into it. */
  lemma TopByte(sum: nat, b: nat)
    requires sum < 0x1_0000_0000 && b < 0x100
    ensures (sum / 2 + b * 0x100_0000 + (if sum / 0x100_0000 % 2 == 1 then 0x8000_0000 else 0))
              % 0x1_0000_0000 / 0x100_0000
         == Rotated(sum / 0x100_0000, b)
  {
    var h, l := sum / 0x100_0000, sum % 0x100_0000;
    var bit := h % 2;
    var low := (bit * 0x100_0000 + l) / 2;
    HalfWord(h, l);
    ByteOnTop(h / 2 + b + bit * 0x80, low);
  }

  lemma HalfWord(h: nat, l: nat)
    requires l < 0x100_0000
    ensures (h * 0x100_0000 + l) / 2 == h / 2 * 0x100_0000 + (h % 2 * 0x100_0000 + l) / 2
    ensures (h % 2 * 0x100_0000 + l) / 2 < 0x100_0000
  {
  }

  lemma ByteOnTop(top: nat, low: nat)
    requires low < 0x100_0000
    ensures (top * 0x100_0000 + low) % 0x1_0000_0000 / 0x100_0000 == top % 0x100
  {
    var q, r := top / 0x100, top % 0x100;
    assert top * 0x100_0000 + low == q * 0x1_0000_0000 + (r * 0x100_0000 + low);
  }
}
