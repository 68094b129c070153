/** What one call on an open file does to everything the file consists of: the volume, the handle and
    the flags that say what the file is open for and whether its directory entry is to be rewritten
    (source/fatfile.c). */
module Calls {
  import opened Bytes
  import opened Chains
  import opened Fat
  import opened FileSpec
  import opened Handles
  import opened Layout
  import opened Truncation

  datatype Flags = Flags(inUse: bool, read: bool, write: bool, modified: bool)

  datatype Moment = Moment(snap: Snap, file: Handle, flags: Flags)

  /** A write of data reported n.  Not open for writing, it is refused; with nothing to write, it does
      nothing.  Only a write that got past its gap step marks the file as modified. */
  ghost predicate WriteCall(g: Geometry, m: Moment, data: seq<byte>, n: int, m': Moment)
    requires SoundAt(g, m.snap, m.file)
  {
    var len := m.file.Fitting(|data|);
    if !m.flags.inUse || !m.flags.write then n == -1 && m' == m
    else if len == 0 then n == 0 && m' == m
    else
      && WriteOutcome(g, m.snap, m.file, m'.snap, m'.file, data[..len], n)
      && m'.flags == m.flags.(modified := m.flags.modified || n >= 0)
  }

  /** A read of len bytes reported n and delivered the buffer. */
  ghost predicate ReadCall(g: Geometry, m: Moment, len: nat, n: int, buffer: seq<byte>, m': Moment)
    requires SoundAt(g, m.snap, m.file)
  {
    if len == 0 then n == 0 && buffer == [] && m' == m
    else if !m.flags.inUse || !m.flags.read then n == -1 && buffer == [] && m' == m
    else
      && n == |buffer| && m'.snap == m.snap && m'.flags == m.flags
      && ReadDone(g, m.snap, m.file, m'.file, len, buffer)
  }

  /** A seek to the offset `target` from the start reported r. */
  ghost predicate SeekCall(g: Geometry, m: Moment, target: int, r: int, m': Moment)
    requires SoundAt(g, m.snap, m.file)
  {
    if m.flags.inUse && 0 <= target <= FILE_MAX_SIZE then
      && r == target && m'.snap == m.snap && m'.flags == m.flags
      && Sought(g, m.snap, m.file, m'.file, target)
    else r == -1 && m' == m
  }

  /** The resize finds an empty file and no cluster to start it with. */
  ghost predicate NoStart(m: Moment, size: int) {
    size > m.file.filesize && m.file.startCluster == CLUSTER_FREE && FreeSet(m.snap.fs.links) == {}
  }

  /** A resize reported ret.  It marks the file as modified, also when it fails, unless it found no
      first cluster. */
  ghost predicate TruncateCall(g: Geometry, m: Moment, size: int, ret: int, m': Moment)
    requires SoundAt(g, m.snap, m.file)
  {
    if size < 0 || size > FILE_MAX_SIZE || !m.flags.inUse || !m.flags.write then ret == -1 && m' == m
    else
      && TruncateOutcome(g, m.snap, m.file, m'.snap, m'.file, size, ret)
      && m'.flags == m.flags.(modified := m.flags.modified || !NoStart(m, size))
  }

  /** After a write that succeeded the next one is accepted: if there is room for it, it reports the
      length of its data, and the file is marked as modified. */
  lemma WriteAfterWrite(g: Geometry, m: Moment, a: seq<byte>, n: int, m1: Moment, b: seq<byte>, n': int, m2: Moment)
    requires SoundAt(g, m.snap, m.file) && WriteCall(g, m, a, n, m1) && n >= 0
    requires SoundAt(g, m1.snap, m1.file) && WriteCall(g, m1, b, n', m2)
    requires 0 < |b| && m1.file.filesize + |b| <= FILE_MAX_SIZE
    requires m1.file.WriteOffset() + |b| <= Room(g, m1.snap.fs.links, |ChainOf(m1.snap, m1.file.startCluster)|)
    ensures n' == |b| && m2.flags == m.flags.(modified := true) && m.flags.inUse && m.flags.write
  {
    hide WriteOutcome, Room, SoundAt;
    assert b[..|b|] == b;
    Complete(g, m1, b, n', m2);
  }

  /** A write refused because the disc is full may have taken a first cluster for an empty file, and then
      did not mark it as modified. */
  lemma LostStart(g: Geometry, m: Moment, data: seq<byte>, m': Moment)
    requires ValidAt(g, m.snap, m.file) && SoundAt(g, m.snap, m.file) && WriteCall(g, m, data, -1, m')
    requires m.flags.inUse && m.flags.write && m.file.Fitting(|data|) > 0
    ensures m'.flags == m.flags
    ensures m'.file.startCluster != m.file.startCluster <==>
              m.file.startCluster == CLUSTER_FREE && FreeSet(m.snap.fs.links) != {}
  {
    hide Room, CursorAt, OthersKept, FreeSet, WellFormed, Exactly, ContentAt, SnapOk;
    AfterRefusal(g, m.snap, m.file, m'.snap, m'.file, data[..m.file.Fitting(|data|)]);
    StartInUse(g, m.snap, m.file);
    StartInUse(g, m'.snap, m'.file);
  }

  lemma StartInUse(g: Geometry, s: Snap, f: Handle)
    requires SoundAt(g, s, f)
    ensures ChainOf(s, f.startCluster) == [] <==> f.startCluster == CLUSTER_FREE
  {
    hide WellFormed;
    if f.startCluster == CLUSTER_FREE { NoChainAtFree(g, s); } else { ChainUsable(g, s, f.startCluster); }
  }

  lemma Complete(g: Geometry, m: Moment, d: seq<byte>, n: int, m': Moment)
    requires SoundAt(g, m.snap, m.file) && WriteOutcome(g, m.snap, m.file, m'.snap, m'.file, d, n)
    requires m.file.WriteOffset() + |d| <= Room(g, m.snap.fs.links, |ChainOf(m.snap, m.file.startCluster)|)
    ensures n == |d|
  {
    hide Room, SoundAt, ValidAt, CursorAt, OthersKept;
  }
}
