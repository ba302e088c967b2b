/** Whole runs of `RDisk` steps: what stays true however partitions come and go. */
module RDiskRuns {
  import opened Bytes
  import CylRanges
  import PartDevice
  import opened RDisks

  datatype Op =
    | Add(name: seq<byte>, range: CylRanges.Range, fsBlockSize: nat)
    | Delete(pid: int)
    | ResizeTo(lo: Option<int>, hi: Option<int>, adjust: bool)
    | AddFileSystem(data: seq<byte>)

  /** Cylinder numbers of the disk and the number of its cylinders fit their fields. */
  predicate DiskOk(s: State, blockBytes: nat) {
    blockBytes > 20 && blockBytes % 4 == 0 && CylsFit(s.rdb.loCyl, s.rdb.hiCyl)
  }

  function Step(s: State, op: Op, blockBytes: nat): (Outcome, State)
    requires DiskOk(s, blockBytes)
  {
    match op
    case Add(name, r, size) => AddPart(s, name, r, size, blockBytes)
    case Delete(pid) => DeletePart(s, pid)
    case ResizeTo(lo, hi, adjust) => Resize(s, lo, hi, adjust)
    case AddFileSystem(data) => AddFs(s, data, blockBytes - 20)
  }

  /** Arguments no step crashes on. */
  predicate Proper(op: Op, blockBytes: nat)
    requires blockBytes > 0
  {
    match op
    case Add(name, _, size) => 1 <= SecPerBlk(size, blockBytes) <= 16 && |name| < 256
    case AddFileSystem(data) => |data| > 0
    case Delete(_) => true
    case ResizeTo(lo, hi, _) => (lo.Some? ==> lo.value >= 0) && (hi.Some? ==> hi.value < 0xFFFF_FFFF)
  }

  /** A resize leaves the RDB area below the logical range. */
  predicate StaysAbove(op: Op, s: State) {
    op.ResizeTo? ==> Bound(op.lo, s.rdb.loCyl) * s.rdb.CylBlks() >= s.max
  }

  /** Partitions carry the geometry of the disk they were made on, and its block size in longs. */
  ghost predicate SameGeometry(s: State, blockBytes: nat) {
    forall i :: 0 <= i < |s.parts| ==>
      s.parts[i].rec.env.surfaces == s.rdb.heads && s.parts[i].rec.env.blkPerTrk == s.rdb.secs
      && s.parts[i].rec.env.Valid() && 4 * s.parts[i].rec.env.blockSize == blockBytes
  }

  predicate SameDrive(s: State, t: State) {
    t.rdb.Log() == s.rdb.Log() && t.rdb.heads == s.rdb.heads && t.rdb.secs == s.rdb.secs && t.max == s.max
  }

  ghost predicate Sound(s: State, blockBytes: nat) {
    DiskOk(s, blockBytes) && Inv(s, blockBytes - 20) && SameGeometry(s, blockBytes)
  }

  lemma AddGeometry(s: State, name: seq<byte>, r: CylRanges.Range, size: nat, blockBytes: nat)
    requires Sound(s, blockBytes)
    ensures var (o, t) := AddPart(s, name, r, size, blockBytes);
      && SameDrive(s, t) && (o == Ok ==> SameGeometry(t, blockBytes))
  {
    hide Inv, FreeList, Highest, CylRanges.Accepts, SecPerBlk;
    var (o, t) := AddPart(s, name, r, size, blockBytes);
    PositiveRange(s, r);
    NewPartition(s, name, r, size, blockBytes);
    if o == Ok {
      assert t.parts[|s.parts|].rec.env.Valid();
      forall i | 0 <= i < |s.parts| ensures t.parts[i].rec.env == s.parts[i].rec.env { }
    }
  }

  lemma DeleteGeometry(s: State, pid: int, blockBytes: nat)
    requires SameGeometry(s, blockBytes)
    ensures var (o, t) := DeletePart(s, pid);
      && o != Crash && SameDrive(s, t) && SameGeometry(t, blockBytes)
  {
    hide Highest;
    var t := DeletePart(s, pid).1;
    if 0 <= pid < |s.parts| {
      forall i | 0 <= i < |t.parts| ensures t.parts[i].rec.env == s.parts[if i < pid then i else i + 1].rec.env { }
    }
  }

  lemma FsGeometry(s: State, data: seq<byte>, segBytes: nat, blockBytes: nat)
    requires segBytes > 0 && SameGeometry(s, blockBytes)
    ensures var t := AddFs(s, data, segBytes).1;
      && SameDrive(s, t) && SameGeometry(t, blockBytes)
  {
    hide FreeList, Highest, WroteSegs;
  }

  /** A step without a crash keeps the disk sound, and the RDB area clear of partitions unless a resize lets
      the logical range into it; proper arguments never crash. */
  lemma StepKeeps(s: State, op: Op, blockBytes: nat)
    requires Sound(s, blockBytes)
    ensures var (o, t) := Step(s, op, blockBytes);
      && (o == Crash ==> !Proper(op, blockBytes))
      && (o != Crash ==> Sound(t, blockBytes) && (StaysAbove(op, s) && Clear(s) ==> Clear(t)))
  {
    hide Inv, AddPart, DeletePart, Resize, AddFs, SameGeometry, SecPerBlk, Bound;
    var segBytes := blockBytes - 20;
    match op
    case Add(name, r, size) =>
      AddPartKeeps(s, segBytes, name, r, size, blockBytes);
      AddGeometry(s, name, r, size, blockBytes);
      AddCrash(s, name, r, size, blockBytes);
    case Delete(pid) =>
      DeletePartKeeps(s, segBytes, pid);
      DeleteGeometry(s, pid, blockBytes);
    case ResizeTo(lo, hi, adjust) =>
      ResizeKeeps(s, segBytes, lo, hi, adjust);
      ResizeGeometry(s, lo, hi, adjust, blockBytes);
    case AddFileSystem(data) =>
      AddFsKeeps(s, segBytes, data);
      FsGeometry(s, data, segBytes, blockBytes);
      FsCrash(s, data, segBytes);
  }

  lemma AddCrash(s: State, name: seq<byte>, r: CylRanges.Range, size: nat, blockBytes: nat)
    requires Sound(s, blockBytes)
    ensures var (o, t) := AddPart(s, name, r, size, blockBytes);
      && (o == Crash ==> !(1 <= SecPerBlk(size, blockBytes) <= 16 && |name| < 256))
      && (o == RangeNotFree || o == NoSpace || o == Crash || o == Ok)
      && (o == RangeNotFree || o == NoSpace ==> t == s)
  {
    hide Inv, FreeList, Highest, CylRanges.Accepts, SecPerBlk, Linked;
    UsedCount(s, blockBytes - 20);
    PositiveRange(s, r);
    if |s.used| + 1 <= s.max { NextFree(s, blockBytes - 20, 1); }
  }

  lemma FsCrash(s: State, data: seq<byte>, segBytes: nat)
    requires segBytes > 0 && Inv(s, segBytes)
    ensures var (o, t) := AddFs(s, data, segBytes);
      (o == Crash ==> |data| == 0) && (o == NoSpace || o == Crash || o == Ok)
    ensures var (o, t) := AddFs(s, data, segBytes); o == Ok ==> |data| > 0
  {
    hide Inv, FreeList, Highest, FsLinked;
    var num := CeilDiv(|data|, segBytes) + 1;
    if |s.used| + num <= s.max { NextFree(s, segBytes, num); }
  }

  lemma ResizeGeometry(s: State, lo: Option<int>, hi: Option<int>, adjust: bool, blockBytes: nat)
    requires SameGeometry(s, blockBytes) && CylsFit(s.rdb.loCyl, s.rdb.hiCyl)
    ensures var (o, t) := Resize(s, lo, hi, adjust); SameGeometry(t, blockBytes) && (o != Ok && o != Crash ==> t == s)
    ensures var (o, t) := Resize(s, lo, hi, adjust); o != Crash ==> CylsFit(t.rdb.loCyl, t.rdb.hiCyl)
    ensures var (o, t) := Resize(s, lo, hi, adjust);
      o == Ok ==> t.rdb.loCyl == Bound(lo, s.rdb.loCyl) && t.rdb.CylBlks() == s.rdb.CylBlks() && t.max == s.max
    ensures var (o, t) := Resize(s, lo, hi, adjust);
      o == Crash ==> (lo.Some? && lo.value < 0) || (hi.Some? && hi.value >= 0xFFFF_FFFF)
  {
  }

  /** Only a crash leaves cylinder numbers that do not fit. */
  lemma LogStays(s: State, op: Op, blockBytes: nat)
    requires DiskOk(s, blockBytes)
    ensures var (o, t) := Step(s, op, blockBytes); o != Crash ==> DiskOk(t, blockBytes)
  {
    hide FreeList, Highest, WroteSegs, CylRanges.Accepts, SecPerBlk, AllWithin;
    if op.Add? { AddPartLog(s, op.name, op.range, op.fsBlockSize, blockBytes); }
    if op.AddFileSystem? { AddFsLog(s, op.data, blockBytes - 20); }
  }

  /** The state after the first `n` steps; None once a step has crashed. */
  function After(s: State, ops: seq<Op>, n: nat, blockBytes: nat): Option<State>
    requires n <= |ops| && DiskOk(s, blockBytes)
    ensures After(s, ops, n, blockBytes).Some? ==> DiskOk(After(s, ops, n, blockBytes).value, blockBytes)
  {
    if n == 0 then Some(s) else
      var t := After(s, ops, n - 1, blockBytes);
      if t.None? then None else
        var (o, u) := Step(t.value, ops[n - 1], blockBytes);
        LogStays(t.value, ops[n - 1], blockBytes);
        if o == Crash then None else Some(u)
  }

  /** No step of the run is a crash, and none lets the logical range into the RDB area. */
  ghost predicate ProperRun(s: State, ops: seq<Op>, n: nat, blockBytes: nat)
    requires n <= |ops| && DiskOk(s, blockBytes)
  {
    forall i :: 0 <= i < n ==>
      var t := After(s, ops, i, blockBytes); Proper(ops[i], blockBytes) && (t.Some? ==> StaysAbove(ops[i], t.value))
  }

  lemma {:induction false} RunKeeps(s: State, ops: seq<Op>, n: nat, blockBytes: nat)
    requires n <= |ops| && Sound(s, blockBytes)
    ensures var t := After(s, ops, n, blockBytes); t.Some? ==> Sound(t.value, blockBytes)
    ensures ProperRun(s, ops, n, blockBytes) ==> After(s, ops, n, blockBytes).Some?
    ensures ProperRun(s, ops, n, blockBytes) && Clear(s) ==> Clear(After(s, ops, n, blockBytes).value)
  {
    hide Inv, Clear, StaysAbove, Proper, SameGeometry, Step, CylsFit;
    if n > 0 {
      RunKeeps(s, ops, n - 1, blockBytes);
      var t := After(s, ops, n - 1, blockBytes);
      if t.Some? { StepKeeps(t.value, ops[n - 1], blockBytes); }
    }
  }

  /** From a new disk, after any proper run: partitions are disjoint and inside the logical range, the used
      list is exact, the chains on the device are the objects in order, no block of a partition touches
      another partition or an RDB block, and a block of a partition has the bytes of its sectors. */
  lemma RunsFromCreate(disk: map<nat, Blk>, cyls: nat, heads: nat, secs: nat, rdbCyls: nat, ops: seq<Op>,
          blockBytes: nat)
    requires blockBytes > 20 && blockBytes % 4 == 0 && 0 < heads * secs * rdbCyls <= NO_BLK && 0 < cyls <= NO_BLK
    requires ProperRun(Fresh(disk, cyls, heads, secs, rdbCyls), ops, |ops|, blockBytes)
    ensures var r := After(Fresh(disk, cyls, heads, secs, rdbCyls), ops, |ops|, blockBytes);
      && r.Some? && Sound(r.value, blockBytes) && Apart(r.value)
      && (forall i :: 0 <= i < |r.value.parts| ==> var e := r.value.parts[i].rec.env;
           4 * e.blockSize == blockBytes && e.BlockBytes() == e.secPerBlk * blockBytes)
  {
    hide Inv, Clear, ProperRun, After, Apart;
    var s := Fresh(disk, cyls, heads, secs, rdbCyls);
    FreshInv(disk, cyls, heads, secs, rdbCyls, blockBytes - 20);
    FreshClear(disk, cyls, heads, secs, rdbCyls);
    RunKeeps(s, ops, |ops|, blockBytes);
    var t := After(s, ops, |ops|, blockBytes).value;
    SoundApart(t, blockBytes);
    forall i | 0 <= i < |t.parts| ensures t.parts[i].rec.env.BlockBytes() == t.parts[i].rec.env.secPerBlk * blockBytes {
      BlockOfLongs(t.parts[i].rec.env, blockBytes);
    }
  }

  /** The two size checks of a partition's device (`PartBlockDevice.WriteBlock`) agree: they let exactly the data
      of as many sectors pass as a block of the partition has. */
  lemma TakesWholeBlocks(s: State, blockBytes: nat, i: nat, data: seq<byte>)
    requires Sound(s, blockBytes) && i < |s.parts|
    ensures var e := s.parts[i].rec.env;
      |data| == e.BlockBytes() <==> |data| == e.secPerBlk * blockBytes
  {
    hide Inv;
    BlockOfLongs(s.parts[i].rec.env, blockBytes);
  }

  lemma FreshClear(disk: map<nat, Blk>, cyls: nat, heads: nat, secs: nat, rdbCyls: nat)
    ensures Clear(Fresh(disk, cyls, heads, secs, rdbCyls))
  {
    MulSwap(rdbCyls, heads * secs);
  }

  /** Sectors under blocks of two partitions differ, and none is an RDB block. */
  ghost predicate Apart(s: State) {
    && (forall i, b, sec :: Accepted(s, i, b) && s.parts[i].rec.env.SectorOf(b, sec) ==> sec >= s.max)
    && (forall i, j, a, b, sec ::
      TwoBlocks(s, i, a, j, b) && s.parts[i].rec.env.SectorOf(a, sec) ==> !s.parts[j].rec.env.SectorOf(b, sec))
  }

  ghost predicate Accepted(s: State, i: int, b: int) {
    0 <= i < |s.parts| && 0 <= b && s.parts[i].rec.env.Valid() && b < s.parts[i].rec.env.NumBlocks()
  }

  ghost predicate TwoBlocks(s: State, i: int, a: int, j: int, b: int) {
    Accepted(s, i, a) && Accepted(s, j, b) && i != j
  }

  lemma SoundApart(s: State, blockBytes: nat)
    requires Sound(s, blockBytes) && Clear(s)
    ensures Apart(s)
  {
    hide Inv, Clear, SameGeometry;
    forall i, b, sec | Accepted(s, i, b) && s.parts[i].rec.env.SectorOf(b, sec) ensures sec >= s.max {
      OwnSector(s, blockBytes, i, b, sec);
      PartsClear(s, blockBytes - 20, i, sec);
    }
    forall i, j, a, b, sec | TwoBlocks(s, i, a, j, b) && s.parts[i].rec.env.SectorOf(a, sec)
      ensures !s.parts[j].rec.env.SectorOf(b, sec)
    {
      OwnSector(s, blockBytes, i, a, sec);
      if s.parts[j].rec.env.SectorOf(b, sec) {
        OwnSector(s, blockBytes, j, b, sec);
        NeighboursApart(s, blockBytes, i, j);
        PartDevice.PartitionsApart(s.parts[i].rec.env, s.parts[j].rec.env, sec);
      }
    }
  }

  lemma OwnSector(s: State, blockBytes: nat, i: nat, b: nat, sec: int)
    requires Sound(s, blockBytes) && Accepted(s, i, b) && s.parts[i].rec.env.SectorOf(b, sec)
    ensures s.parts[i].rec.env.Owns(sec) && s.parts[i].rec.env.CylBlks() == s.rdb.CylBlks()
  {
    hide Inv;
    PartDevice.InsideIffNonNegative(s.parts[i].rec.env, b);
  }

  lemma NeighboursApart(s: State, blockBytes: nat, i: nat, j: nat)
    requires Sound(s, blockBytes) && i < |s.parts| && j < |s.parts| && i != j
    ensures var e, f := s.parts[i].rec.env, s.parts[j].rec.env; e.highCyl < f.lowCyl || f.highCyl < e.lowCyl
  {
    var rs := Ranges(s.parts);
    assert rs[i] == s.parts[i].Cyls() && rs[j] == s.parts[j].Cyls();
  }
}
