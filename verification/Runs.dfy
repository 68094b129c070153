/** Whole runs of operations on one open file, against a file that is just bytes and a position. */
module Runs {
  import opened Bytes
  import opened Pages
  import opened Layout
  import opened Chains
  import opened Fat
  import opened FileBytes
  import opened FileSpec
  import opened Handles
  import opened Truncation
  import opened Cursors
  import opened Calls

  /** One call and what it reported and delivered. */
  datatype Act =
    | Put(data: seq<byte>, done: int)
    | Get(len: nat, n: int, got: seq<byte>)
    | SeekTo(to: int, r: int)
    | Resize(size: int, ret: int)

  /** The simple form of an open file. */
  datatype Plain = Plain(content: seq<byte>, pos: nat)

  function Apply(p: Plain, append: bool, a: Act): Plain {
    match a
    case Put(d, n) =>
      if |p.content| >= FILE_MAX_SIZE || d == [] || !(0 <= n <= |d|) then p
      else if append then Plain(p.content + d[..n], p.pos)
      else Plain(Overlay(p.content, p.pos, d[..n]), p.pos + n)
    case Get(_, _, got) => Plain(p.content, p.pos + |got|)
    case SeekTo(to, r) => if to >= 0 && r >= 0 then Plain(p.content, to) else p
    case Resize(n, ret) => if n >= 0 && ret == 0 then Plain(Resized(p.content, n), p.pos) else p
  }

  function ApplyAll(p: Plain, append: bool, acts: seq<Act>): Plain {
    if acts == [] then p else Apply(ApplyAll(p, append, acts[..|acts| - 1]), append, acts[|acts| - 1])
  }

  /** From m to m' the call a was carried out by the code. */
  ghost predicate Does(g: Geometry, m: Moment, a: Act, m': Moment)
    requires SoundAt(g, m.snap, m.file)
  {
    match a
    case Put(d, n) => WriteCall(g, m, d, n, m')
    case Get(len, n, got) => ReadCall(g, m, len, n, got, m')
    case SeekTo(to, r) => SeekCall(g, m, to, r, m')
    case Resize(n, ret) => TruncateCall(g, m, n, ret, m')
  }

  /** The file is open for the call. */
  predicate OpenFor(f: Flags, a: Act) {
    && f.inUse
    && match a
       case Put(_, _) => f.write
       case Get(_, _, _) => f.read
       case SeekTo(_, _) => true
       case Resize(_, _) => f.write
  }

  /** The call marks the file as modified. */
  ghost predicate Marks(m: Moment, a: Act) {
    match a
    case Put(d, n) => m.file.filesize < FILE_MAX_SIZE && d != [] && n >= 0
    case Get(_, _, _) => false
    case SeekTo(_, _) => false
    case Resize(n, _) => 0 <= n <= FILE_MAX_SIZE && !NoStart(m, n)
  }

  /** Where the code keeps file and cursor right: no read that starts due and takes less than a
      sector, no append or resize that leaves the cursor behind, no refusal that takes clusters
      (Cursors.SeekThenRead, CursorAfterAppend and CursorAfterTruncate, Handles.AfterRefusal). */
  ghost predicate Tame(g: Geometry, m: Moment, a: Act) {
    match a
    case Put(_, n) =>
      if n < 0 then FreeSet(m.snap.fs.links) == {}
      else m.file.append ==> CursorKept(g, m.snap, m.file, m.file.filesize + n)
    case Get(len, _, _) => !Misread(g, m.file, len)
    case SeekTo(_, _) => true
    case Resize(n, ret) =>
      0 <= n <= FILE_MAX_SIZE ==>
        if ret == 0 then g.BytesPerCluster() > 0 && CursorSafe(g, m.snap, m.file, n) else NoStart(m, n)
  }

  ghost predicate Good(g: Geometry, m: Moment) {
    ValidAt(g, m.snap, m.file) && CursorAt(g, m.snap, m.file)
  }

  ghost predicate IsRun(g: Geometry, ms: seq<Moment>, acts: seq<Act>) {
    && |ms| == |acts| + 1
    && forall i :: 0 <= i < |acts| ==>
         SoundAt(g, ms[i].snap, ms[i].file) && Does(g, ms[i], acts[i], ms[i + 1]) && Tame(g, ms[i], acts[i])
  }

  ghost function View(g: Geometry, m: Moment): Plain
    requires SoundAt(g, m.snap, m.file)
  {
    Plain(ContentAt(g, m.snap, m.file), m.file.currentPosition)
  }

  /** Every chain but the file's own is as it was, and so are its bytes. */
  ghost predicate OthersSafe(g: Geometry, m: Moment, m': Moment) {
    && SnapOk(g, m.snap) && SnapOk(g, m'.snap) && OutsideKept(g, m.snap.view, m'.snap.view)
    && forall k :: k in m.snap.fs.chains && k != m.file.startCluster ==>
         && k in m'.snap.fs.chains && k != m'.file.startCluster
         && m'.snap.fs.chains[k] == m.snap.fs.chains[k] && FileRaw(g, m'.snap, k) == FileRaw(g, m.snap, k)
  }

  /** What a read delivered is what the plain file holds there. */
  ghost predicate Agrees(p: Plain, a: Act) {
    a.Get? ==>
      a.n == |a.got| &&
      var n := if p.pos >= |p.content| then 0 else if p.pos + a.len > |p.content| then |p.content| - p.pos else a.len;
      |a.got| == n && p.pos + n <= Max(|p.content|, p.pos) && (n > 0 ==> a.got == p.content[p.pos..p.pos + n])
  }

  lemma OneStep(g: Geometry, m: Moment, a: Act, m': Moment)
    requires Good(g, m) && Does(g, m, a, m') && Tame(g, m, a) && OpenFor(m.flags, a)
    ensures Good(g, m') && View(g, m') == Apply(View(g, m), m.file.append, a) && m'.file.append == m.file.append
    ensures m'.flags == m.flags.(modified := m.flags.modified || Marks(m, a))
    ensures OthersSafe(g, m, m') && Agrees(View(g, m), a)
    ensures m.snap.fs.count == FreeCount(m.snap.fs.links) ==> m'.snap.fs.count == FreeCount(m'.snap.fs.links)
  {
    hide ByteOffset, WellFormed, Raw, FreeSet, Room, StandsAt, OthersKept, Exactly, Overlay, Landing, OutsideKept,
         Phantom, CursorSafe, CursorKept, WriteOutcome, TruncateOutcome, ReadDone, Sought;
    var s, f, t, f' := m.snap, m.file, m'.snap, m'.file;
    Untouched(g, m, m);
    match a {
      case Put(d, n) =>
        var len := f.Fitting(|d|);
        if len > 0 {
          WriteKeeps(g, s, f, t, f', d[..len], n);
          if n < 0 {
            RefusedStep(g, m, d[..len], m');
          } else {
            PutStep(g, m, d[..len], n, m');
            assert d[..len][..n] == d[..n];
          }
        }
      case Get(len, n, got) =>
        if len > 0 { GetStep(g, m, len, got, m'); } else { NothingWanted(g, m); }
      case SeekTo(p, r) =>
        if 0 <= p <= FILE_MAX_SIZE {
          SeekStep(g, m, p, m');
        }
      case Resize(n, ret) =>
        if 0 <= n <= FILE_MAX_SIZE {
          ResizeStep(g, m, n, ret, m');
        }
    }
  }

  lemma NothingWanted(g: Geometry, m: Moment)
    requires SoundAt(g, m.snap, m.file)
    ensures Agrees(View(g, m), Get(0, 0, []))
  {
  }

  lemma WriteKeeps(g: Geometry, s: Snap, f: Handle, t: Snap, f': Handle, d: seq<byte>, n: int)
    requires SoundAt(g, s, f) && WriteOutcome(g, s, f, t, f', d, n)
    ensures f'.append == f.append && -1 <= n <= |d|
    ensures s.fs.count == FreeCount(s.fs.links) ==> t.fs.count == FreeCount(t.fs.links)
  {
    hide SoundAt, ValidAt, CursorAt, OthersKept, Room, FreeSet;
  }

  lemma SeekStep(g: Geometry, m: Moment, p: nat, m': Moment)
    requires Good(g, m) && m'.snap == m.snap && Sought(g, m.snap, m.file, m'.file, p)
    ensures Good(g, m') && View(g, m') == Plain(View(g, m).content, p) && OthersSafe(g, m, m')
    ensures m'.file.append == m.file.append
  {
    hide ByteOffset, WellFormed, Raw, Landing, StandsAt, Exactly, OutsideKept;
    SoughtCursor(g, m.snap, m.file, m'.file, p);
    Untouched(g, m, m');
  }

  lemma PutStep(g: Geometry, m: Moment, d: seq<byte>, n: nat, m': Moment)
    requires Good(g, m) && WriteOutcome(g, m.snap, m.file, m'.snap, m'.file, d, n)
    requires m.file.append ==> CursorKept(g, m.snap, m.file, m.file.filesize + n)
    ensures Good(g, m') && OthersSafe(g, m, m') && n <= |d|
    ensures View(g, m') == if m.file.append then Plain(View(g, m).content + d[..n], View(g, m).pos)
                           else Plain(Overlay(View(g, m).content, View(g, m).pos, d[..n]), View(g, m).pos + n)
  {
    hide ByteOffset, WellFormed, Raw, FreeSet, Room, StandsAt, OthersKept, Exactly, Overlay, OutsideKept, Phantom,
         CursorKept;
    KeptIsSafe(g, m, m', m'.file.startCluster);
    if m.file.append {
      OverlayAtEnd(ContentAt(g, m.snap, m.file), d[..n]);
      CursorAfterAppend(g, m.snap, m.file, m'.snap, m'.file, d, n);
    }
  }

  /** A write refused on a disc that was full before changes nothing. */
  lemma RefusedStep(g: Geometry, m: Moment, d: seq<byte>, m': Moment)
    requires Good(g, m) && WriteOutcome(g, m.snap, m.file, m'.snap, m'.file, d, -1) && FreeSet(m.snap.fs.links) == {}
    ensures Good(g, m') && View(g, m') == View(g, m) && OthersSafe(g, m, m')
  {
    hide ByteOffset, WellFormed, Raw, FreeSet, Room, StandsAt, OthersKept, Exactly, OutsideKept, Phantom;
    var s, f, t, f' := m.snap, m.file, m'.snap, m'.file;
    AfterRefusal(g, s, f, t, f', d);
    StartAndSize(g, s, f);
    StartAndSize(g, t, f');
    assert |ContentAt(g, t, f')| == f.filesize;
    assert ChainOf(t, f'.startCluster) == ChainOf(s, f.startCluster);
    KeptIsSafe(g, m, m', f'.startCluster);
  }

  lemma ResizeStep(g: Geometry, m: Moment, n: nat, ret: int, m': Moment)
    requires Good(g, m) && TruncateOutcome(g, m.snap, m.file, m'.snap, m'.file, n, ret)
    requires if ret == 0 then g.BytesPerCluster() > 0 && CursorSafe(g, m.snap, m.file, n) else NoStart(m, n)
    ensures Good(g, m') && OthersSafe(g, m, m') && m'.file.append == m.file.append
    ensures View(g, m') == if ret == 0 then Plain(Resized(View(g, m).content, n), View(g, m).pos) else View(g, m)
    ensures m.snap.fs.count == FreeCount(m.snap.fs.links) ==> m'.snap.fs.count == FreeCount(m'.snap.fs.links)
  {
    hide ByteOffset, WellFormed, Raw, FreeSet, Room, StandsAt, OthersKept, Exactly, Landing, OutsideKept, Phantom,
         CursorSafe;
    var s, f, t, f' := m.snap, m.file, m'.snap, m'.file;
    NoChainAtFree(g, s);
    NoChainAtFree(g, t);
    if ret == 0 {
      CursorAfterTruncate(g, s, f, t, f', n);
      ResizedSize(g, s, f, t, f', n);
      KeptIsSafe(g, m, m', Worked(f, f'));
    } else {
      KeptIsSafe(g, m, m', CLUSTER_FREE);
    }
  }

  lemma GetStep(g: Geometry, m: Moment, len: nat, got: seq<byte>, m': Moment)
    requires Good(g, m) && m'.snap == m.snap && ReadDone(g, m.snap, m.file, m'.file, len, got)
    requires !Misread(g, m.file, len)
    ensures Good(g, m') && View(g, m') == Plain(View(g, m).content, View(g, m).pos + |got|) && OthersSafe(g, m, m')
    ensures m'.file.append == m.file.append && Agrees(View(g, m), Get(len, |got|, got))
  {
    hide ByteOffset, WellFormed, Raw, FreeSet, Room, StandsAt, OthersKept, Exactly, Overlay, OutsideKept, Phantom;
    StartAndSize(g, m.snap, m.file);
    Untouched(g, m, m');
  }

  /** A cursor that stands in a cluster of the file goes on doing so, unless a cut takes the cluster. */
  lemma StepAnchored(g: Geometry, m: Moment, a: Act, m': Moment)
    requires Good(g, m) && Does(g, m, a, m') && Tame(g, m, a) && Anchored(m.snap, m.file)
    ensures g.BytesPerCluster() > 0
    ensures Anchored(m'.snap, m'.file) <==>
            (OpenFor(m.flags, a) && a.Resize? && a.ret == 0 && 0 < a.size < m.file.filesize ==>
               var chain, n := ChainOf(m.snap, m.file.startCluster), (a.size - 1) / g.BytesPerCluster() + 1;
               0 <= n <= |chain| && m.file.rwPosition.cluster in chain[..n])
  {
    hide ByteOffset, WellFormed, Raw, FreeSet, Room, StandsAt, OthersKept, Exactly, Overlay, Landing, Phantom,
         CursorSafe, WriteOutcome, ReadDone, Sought;
    var s, f, t, f' := m.snap, m.file, m'.snap, m'.file;
    BpcPositive(g);
    match a {
      case Put(d, n) =>
        if OpenFor(m.flags, a) && f.Fitting(|d|) > 0 { WriteAnchored(g, s, f, t, f', d[..f.Fitting(|d|)], n); }
      case Get(len, n, got) =>
        if OpenFor(m.flags, a) && len > 0 { ReadAnchored(g, s, f, f', len, got); }
      case SeekTo(p, r) =>
        if OpenFor(m.flags, a) && 0 <= p <= FILE_MAX_SIZE { SeekAnchored(g, s, f, f', p); }
      case Resize(n, ret) =>
        if OpenFor(m.flags, a) && 0 <= n <= FILE_MAX_SIZE {
          if ret == 0 {
            ResizeAnchored(g, s, f, t, f', n);
          } else {
            NoChainAtFree(g, t);
          }
        }
    }
  }

  lemma Untouched(g: Geometry, m: Moment, m': Moment)
    requires SoundAt(g, m.snap, m.file) && m'.snap == m.snap && m'.file.startCluster == m.file.startCluster
    ensures OthersSafe(g, m, m')
  {
    hide ByteOffset, WellFormed, Raw;
    RootAreaFits(g);
  }

  lemma KeptIsSafe(g: Geometry, m: Moment, m': Moment, h: nat)
    requires SoundAt(g, m.snap, m.file) && SnapOk(g, m'.snap) && OthersKept(g, m.snap, m'.snap, h)
    requires h == m.file.startCluster || (h == m'.file.startCluster && h !in m.snap.fs.chains)
    requires m'.file.startCluster == m.file.startCluster || m'.file.startCluster !in m.snap.fs.chains
    ensures OthersSafe(g, m, m')
  {
    hide ByteOffset, WellFormed, Raw, FileRaw, OutsideKept;
    var c, c' := m.snap.fs.chains, m'.snap.fs.chains;
    forall k | k in c && k != m.file.startCluster ensures k in c' && c'[k] == c[k] {
      assert k in c - {h} && (c - {h})[k] == c[k];
      assert k in c' - {h} && (c' - {h})[k] == c'[k];
    }
  }

  lemma SafeTrans(g: Geometry, m: Moment, m': Moment, m'': Moment)
    requires OthersSafe(g, m, m') && OthersSafe(g, m', m'')
    ensures OthersSafe(g, m, m'')
  {
    hide ByteOffset, WellFormed, Raw, FileRaw;
  }

  /** A run on one open file does to it what it would do to plain bytes with a position, reads
      deliver the plain bytes, the chain stays exactly as long as the size asks for, and no other
      file, no byte outside the table in use and the clusters, nor the running count of free clusters
      suffers.  Every call is accepted if the file was opened for it, and the file is marked as modified
      exactly if some call did so. */
  lemma {:induction false} RunIsPlain(g: Geometry, ms: seq<Moment>, acts: seq<Act>)
    requires IsRun(g, ms, acts) && Good(g, ms[0]) && forall i :: 0 <= i < |acts| ==> OpenFor(ms[0].flags, acts[i])
    ensures var last := ms[|acts|];
            && Good(g, last) && last.file.append == ms[0].file.append
            && View(g, last) == ApplyAll(View(g, ms[0]), ms[0].file.append, acts)
            && OthersSafe(g, ms[0], last)
            && (ms[0].snap.fs.count == FreeCount(ms[0].snap.fs.links) ==>
                  last.snap.fs.count == FreeCount(last.snap.fs.links))
            && last.flags == ms[0].flags.(modified := ms[0].flags.modified || AnyMarks(ms, acts))
    ensures forall i :: 0 <= i < |acts| ==> Agrees(ApplyAll(View(g, ms[0]), ms[0].file.append, acts[..i]), acts[i])
    ensures forall i :: 0 <= i < |acts| ==> OpenFor(ms[i].flags, acts[i])
    decreases |acts|
  {
    hide ByteOffset, WellFormed, Raw, FreeSet, ValidAt, SoundAt, CursorAt, Tame, Does, OthersSafe, Agrees, View, Apply,
         AnyMarks, OpenFor;
    if acts == [] {
      StartSafe(g, ms[0]);
      NoMarks(ms);
    } else {
      var n := |acts| - 1;
      var before, front := ms[..n + 1], acts[..n];
      assert IsRun(g, before, front);
      RunIsPlain(g, before, front);
      assert SoundAt(g, ms[n].snap, ms[n].file) && Does(g, ms[n], acts[n], ms[n + 1]) && Tame(g, ms[n], acts[n]);
      SameOpenings(ms[0].flags, ms[n].flags, acts[n]);
      OneStep(g, ms[n], acts[n], ms[n + 1]);
      SafeTrans(g, ms[0], ms[n], ms[n + 1]);
      MoreAgrees(View(g, ms[0]), ms[0].file.append, acts);
      MoreMarks(ms, acts);
      forall i | 0 <= i < |acts| ensures OpenFor(ms[i].flags, acts[i]) {
        if i < n { assert before[i] == ms[i] && front[i] == acts[i]; }
      }
    }
  }

  ghost predicate AnyMarks(ms: seq<Moment>, acts: seq<Act>)
    requires |ms| == |acts| + 1
  {
    exists i :: 0 <= i < |acts| && Marks(ms[i], acts[i])
  }

  lemma NoMarks(ms: seq<Moment>)
    requires |ms| == 1
    ensures !AnyMarks(ms, [])
  {
  }

  lemma MoreMarks(ms: seq<Moment>, acts: seq<Act>)
    requires acts != [] && |ms| == |acts| + 1
    ensures var n := |acts| - 1; AnyMarks(ms, acts) <==> AnyMarks(ms[..n + 1], acts[..n]) || Marks(ms[n], acts[n])
  {
    hide Marks;
    var n := |acts| - 1;
    var before, front := ms[..n + 1], acts[..n];
    if i :| 0 <= i < |acts| && Marks(ms[i], acts[i]) {
      if i < n { assert Marks(before[i], front[i]); }
    }
    if i :| 0 <= i < n && Marks(before[i], front[i]) {
      assert Marks(ms[i], acts[i]);
    }
  }

  lemma SameOpenings(f: Flags, f': Flags, a: Act)
    requires f'.inUse == f.inUse && f'.read == f.read && f'.write == f.write && OpenFor(f, a)
    ensures OpenFor(f', a)
  {
  }

  lemma MoreAgrees(p: Plain, append: bool, acts: seq<Act>)
    requires acts != [] && Agrees(ApplyAll(p, append, acts[..|acts| - 1]), acts[|acts| - 1])
    requires var front := acts[..|acts| - 1];
             forall i :: 0 <= i < |front| ==> Agrees(ApplyAll(p, append, front[..i]), front[i])
    ensures forall i :: 0 <= i < |acts| ==> Agrees(ApplyAll(p, append, acts[..i]), acts[i])
  {
    hide Agrees, ApplyAll;
    var front := acts[..|acts| - 1];
    forall i | 0 <= i < |acts| ensures Agrees(ApplyAll(p, append, acts[..i]), acts[i]) {
      if i < |front| { assert front[..i] == acts[..i] && front[i] == acts[i]; }
    }
  }

  lemma StartSafe(g: Geometry, m: Moment)
    requires Good(g, m)
    ensures OthersSafe(g, m, m) && SoundAt(g, m.snap, m.file)
  {
    Untouched(g, m, m);
  }
}
