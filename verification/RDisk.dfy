/** `RDisk`: the Rigid Disk Block, its partition and file system blocks, and the steps that change them. */
module RDisks {
  import opened Bytes
  import opened Seqs
  import opened CylRanges
  import PartDevice
  import Device
  import Files = FileLayout

  const NO_BLK: nat := 0xFFFF_FFFF
  const RDB_BLK: nat := 0
  const DRIVE_NAME: nat := 31

  // ----- blocks on the device -----

  datatype Rdb = Rdb(partList: nat, fsList: nat, rdbBlkHi: int, loCyl: int, hiCyl: int, highRdskBlk: nat,
                     cyls: nat, heads: nat, secs: nat) {
    function Log(): Range { Range(loCyl, hiCyl) }

    function CylBlks(): nat { heads * secs }
  }

  datatype PartRec = PartRec(name: seq<byte>, env: PartDevice.DosEnv, next: nat)

  datatype Blk =
    | RdbBlk(rdb: Rdb)
    | PartBlk(rec: PartRec)
    | FsBlk(segList: nat, next: nat)
    | SegBlk(next: nat, data: seq<byte>)

  /** A partition object: the number and the contents of its block. */
  datatype Part = Part(blk: nat, rec: PartRec) {
    function Cyls(): Range { Range(rec.env.lowCyl, rec.env.highCyl) }
  }

  datatype FileSys = FileSys(blk: nat, segs: seq<nat>, data: seq<byte>) {
    function Blks(): seq<nat> { [blk] + segs }
  }

  /** Everything an `RDisk` object holds, and its device. */
  datatype State = State(disk: map<nat, Blk>, rdb: Rdb, parts: seq<Part>, fs: seq<FileSys>, used: seq<nat>, max: nat)

  // ----- the invariant -----

  function At(s: seq<nat>, i: nat): nat { if i < |s| then s[i] else NO_BLK }

  function PartBlks(parts: seq<Part>): (r: seq<nat>)
    ensures |r| == |parts| && forall i :: 0 <= i < |parts| ==> r[i] == parts[i].blk
  {
    seq(|parts|, i requires 0 <= i < |parts| => parts[i].blk)
  }

  function Ranges(parts: seq<Part>): (r: seq<Range>)
    ensures |r| == |parts| && forall i :: 0 <= i < |parts| ==> r[i] == parts[i].Cyls()
  {
    seq(|parts|, i requires 0 <= i < |parts| => parts[i].Cyls())
  }

  function FsHeads(fs: seq<FileSys>): (r: seq<nat>)
    ensures |r| == |fs| && forall i :: 0 <= i < |fs| ==> r[i] == fs[i].blk
  {
    seq(|fs|, i requires 0 <= i < |fs| => fs[i].blk)
  }

  function FsBlks(fs: seq<FileSys>, n: nat): seq<nat>
    requires n <= |fs|
  {
    if n == 0 then [] else FsBlks(fs, n - 1) + fs[n - 1].Blks()
  }

  /** The blocks in use: RDB, partitions, file systems. */
  function Owned(parts: seq<Part>, fs: seq<FileSys>): seq<nat> {
    [RDB_BLK] + PartBlks(parts) + FsBlks(fs, |fs|)
  }

  ghost predicate PartOnDisk(disk: map<nat, Blk>, parts: seq<Part>, i: nat)
    requires i < |parts|
  {
    && parts[i].blk in disk && disk[parts[i].blk] == PartBlk(parts[i].rec)
    && parts[i].rec.next == At(PartBlks(parts), i + 1)
  }

  /** The chain from `part_list` is `parts`, in order. */
  ghost predicate PartsOnDisk(disk: map<nat, Blk>, first: nat, parts: seq<Part>) {
    first == At(PartBlks(parts), 0) && forall i :: 0 <= i < |parts| ==> PartOnDisk(disk, parts, i)
  }

  ghost predicate FsOnDisk(disk: map<nat, Blk>, segBytes: nat, fs: seq<FileSys>, i: nat)
    requires i < |fs| && segBytes > 0
  {
    && fs[i].blk in disk && disk[fs[i].blk] == FsBlk(At(fs[i].segs, 0), At(FsHeads(fs), i + 1))
    && SegsOnDisk(disk, segBytes, fs[i].segs, fs[i].data)
  }

  ghost predicate SegsOnDisk(disk: map<nat, Blk>, segBytes: nat, segs: seq<nat>, data: seq<byte>)
    requires segBytes > 0
  {
    |segs| == CeilDiv(|data|, segBytes) && forall j :: 0 <= j < |segs| ==> SegOnDisk(disk, segBytes, segs, data, j)
  }

  ghost predicate SegOnDisk(disk: map<nat, Blk>, segBytes: nat, segs: seq<nat>, data: seq<byte>, j: nat)
    requires j < |segs|
  {
    segs[j] in disk && disk[segs[j]] == SegBlk(At(segs, j + 1), Files.Piece(data, segBytes, j))
  }

  ghost predicate AllFsOnDisk(disk: map<nat, Blk>, segBytes: nat, first: nat, fs: seq<FileSys>)
    requires segBytes > 0
  {
    first == At(FsHeads(fs), 0) && forall i :: 0 <= i < |fs| ==> FsOnDisk(disk, segBytes, fs, i)
  }

  ghost predicate AllBelow(s: seq<nat>, max: nat) { forall b :: b in s ==> b < max }

  /** `used` lists, once each, the blocks in use. */
  ghost predicate Books(parts: seq<Part>, fs: seq<FileSys>, used: seq<nat>, max: nat) {
    multiset(used) == multiset(Owned(parts, fs)) && Distinct(used) && AllBelow(used, max)
  }

  function Highest(s: seq<nat>, n: nat): nat
    requires n <= |s|
  {
    if n == 0 then 0 else if s[n - 1] > Highest(s, n - 1) then s[n - 1] else Highest(s, n - 1)
  }

  ghost predicate Inv(s: State, segBytes: nat)
    requires segBytes > 0
  {
    && s.max == s.rdb.rdbBlkHi + 1 && s.max <= NO_BLK
    && Books(s.parts, s.fs, s.used, s.max) && s.rdb.highRdskBlk == Highest(s.used, |s.used|)
    && RDB_BLK in s.disk && s.disk[RDB_BLK] == RdbBlk(s.rdb)
    && Layout(s.rdb.Log(), Ranges(s.parts))
    && PartsOnDisk(s.disk, s.rdb.partList, s.parts)
    && AllFsOnDisk(s.disk, segBytes, s.rdb.fsList, s.fs)
  }

  // ----- counting blocks -----

  /** `get_free_blocks`. */
  function FreeList(used: seq<nat>, n: nat): seq<nat> {
    if n == 0 then [] else FreeList(used, n - 1) + if n - 1 in used then [] else [n - 1]
  }

  lemma {:induction false} FreeMembers(used: seq<nat>, n: nat)
    ensures forall b: nat :: b in FreeList(used, n) <==> b < n && b !in used
    ensures Distinct(FreeList(used, n))
    decreases n
  {
    if n > 0 { FreeMembers(used, n - 1); }
  }

  ghost predicate Ascending(s: seq<nat>) { forall i, j :: 0 <= i < j < |s| ==> s[i] < s[j] }

  lemma {:induction false} FreeAscends(used: seq<nat>, n: nat)
    ensures Ascending(FreeList(used, n))
  {
    if n > 0 {
      FreeAscends(used, n - 1);
      FreeMembers(used, n - 1);
      var less, all := FreeList(used, n - 1), FreeList(used, n);
      assert less <= all && (all == less || all == less + [n - 1]);
      forall i, j | 0 <= i < j < |all| ensures all[i] < all[j] { assert less[i] in less; }
    }
  }

  /** The first free blocks are the lowest ones that are not in use. */
  lemma LowestFree(used: seq<nat>, max: nat, n: nat)
    requires n <= |FreeList(used, max)|
    ensures var blks := FreeList(used, max)[..n];
      && Ascending(blks) && (forall b :: b in blks ==> b < max && b !in used)
      && forall b: nat, f :: f in blks && b < f && b !in used ==> b in blks
  {
    hide FreeList;
    FreeAscends(used, max);
    FreeMembers(used, max);
    var free := FreeList(used, max);
    var blks := free[..n];
    forall f | f in blks ensures f in free { }
    forall b: nat, f | f in blks && b < f && b !in used ensures b in blks {
      assert f in free && b in free;
      var i :| 0 <= i < |free| && free[i] == b;
      var j :| 0 <= j < |blks| && blks[j] == f;
      assert free[j] == f && i < j;
      assert blks[i] == b;
    }
  }

  /** Free and used blocks make up the whole area. */
  lemma FreeCount(used: seq<nat>, n: nat)
    requires Distinct(used) && AllBelow(used, n)
    ensures |FreeList(used, n)| == n - |used|
  {
    hide Distinct, FreeList;
    FreeMembers(used, n);
    RangeElems(0, n);
    var free := FreeList(used, n);
    DistinctCard(free);
    DistinctCard(used);
    forall b: nat ensures b in Elems(free) <==> b in Seqs.Range(0, n) - Elems(used) { InRangeSet(0, n, b); }
    assert Elems(free) == Seqs.Range(0, n) - Elems(used);
    SubsetCard(Elems(used), Seqs.Range(0, n));
  }

  // ----- adding and deleting partitions -----

  datatype Outcome = Ok | RangeNotFree | NoSpace | Crash | NotFound | InvalidRange | DoesNotFit | NeedPhysical

  function SecPerBlk(fsBlockSize: nat, blockBytes: nat): int
    requires blockBytes > 0
  {
    if fsBlockSize == 0 then 1 else fsBlockSize / blockBytes
  }

  function WithUsed(s: State, blks: seq<nat>): State {
    var used := s.used + blks;
    s.(used := used, rdb := s.rdb.(highRdskBlk := Highest(used, |used|)))
  }

  /** The step of `add_partition` after its checks: block `b`, linked behind the last partition. */
  function Linked(s: State, b: nat, rec: PartRec): State {
    var t := WithUsed(s, [b]);
    var n := |s.parts|;
    var disk := t.disk[b := PartBlk(rec)];
    if n == 0 then
      var rdb := t.rdb.(partList := b);
      State(disk[RDB_BLK := RdbBlk(rdb)], rdb, [Part(b, rec)], s.fs, t.used, s.max)
    else
      var last := s.parts[n - 1];
      var last' := Part(last.blk, last.rec.(next := b));
      State(disk[last.blk := PartBlk(last'.rec)][RDB_BLK := RdbBlk(t.rdb)], t.rdb,
            s.parts[..n - 1] + [last', Part(b, rec)], s.fs, t.used, s.max)
  }

  /** What the fields of a partition block take; a name longer than its field is cut, one of 256 bytes is not
      written at all. */
  predicate PartFits(name: seq<byte>, r: Range, secPerBlk: int) {
    1 <= secPerBlk <= 16 && |name| < 256 && r.hi <= 0xFFFF_FFFF
  }

  function NewRec(s: State, name: seq<byte>, r: Range, spb: nat, blockBytes: nat): PartRec
    requires 0 <= r.lo && 0 <= r.hi
  {
    var env := PartDevice.DosEnv(r.lo, r.hi, s.rdb.heads, s.rdb.secs, spb, blockBytes / 4);
    PartRec(Device.CutTo(name, DRIVE_NAME), env, NO_BLK)
  }

  /** `add_partition` without extra DOS environment entries. */
  function AddPart(s: State, name: seq<byte>, r: Range, fsBlockSize: nat, blockBytes: nat): (Outcome, State)
    requires blockBytes > 0 && s.rdb.loCyl >= 0
  {
    if !Accepts(s.rdb.Log(), Ranges(s.parts), r) then (RangeNotFree, s)
    else if |s.used| + 1 > s.max then (NoSpace, s)
    else
      var free := FreeList(s.used, s.max);
      if free == [] then (Crash, s) else
        var spb := SecPerBlk(fsBlockSize, blockBytes);
        // the errors for a bad block size or name come when the block is already entered as used
        if !PartFits(name, r, spb) then (Crash, WithUsed(s, [free[0]]))
        else (Ok, Linked(s, free[0], NewRec(s, name, r, spb, blockBytes)))
  }

  // ----- consequences of the invariant -----

  /** No block is in use twice. */
  lemma OwnedFacts(parts: seq<Part>, fs: seq<FileSys>, used: seq<nat>, max: nat)
    requires Books(parts, fs, used, max)
    ensures var p, f := PartBlks(parts), FsBlks(fs, |fs|);
      && Distinct(p) && Distinct(f) && RDB_BLK !in p && RDB_BLK !in f && (forall b :: b in p ==> b !in f)
      && RDB_BLK in used && (forall b :: b in p || b in f ==> b in used) && |used| == 1 + |p| + |f|
  {
    hide Distinct;
    var p, f, o := PartBlks(parts), FsBlks(fs, |fs|), Owned(parts, fs);
    PermDistinct(used, o);
    assert o == Files.FileBlocks(RDB_BLK, p, f);
    Files.SplitDistinct(RDB_BLK, p, f);
    assert |multiset(used)| == |used| && |multiset(o)| == |o|;
    forall b | b in o ensures b in used { assert b in multiset(o); }
    assert o[0] == RDB_BLK;
  }

  lemma {:induction false} FsBlkIn(fs: seq<FileSys>, n: nat, i: nat, b: nat)
    requires i < n <= |fs| && b in fs[i].Blks()
    ensures b in FsBlks(fs, n)
  {
    if i < n - 1 { FsBlkIn(fs, n - 1, i, b); }
  }

  ghost predicate SameOn(disk: map<nat, Blk>, disk': map<nat, Blk>, blks: seq<nat>) {
    forall b :: b in blks && b in disk ==> b in disk' && disk'[b] == disk[b]
  }

  /** File systems do not notice writes to other blocks. */
  lemma FsFrame(disk: map<nat, Blk>, disk': map<nat, Blk>, segBytes: nat, first: nat, fs: seq<FileSys>)
    requires segBytes > 0 && AllFsOnDisk(disk, segBytes, first, fs) && SameOn(disk, disk', FsBlks(fs, |fs|))
    ensures AllFsOnDisk(disk', segBytes, first, fs)
  {
    forall i | 0 <= i < |fs| ensures FsOnDisk(disk', segBytes, fs, i) {
      forall b | b in fs[i].Blks() ensures b in FsBlks(fs, |fs|) { FsBlkIn(fs, |fs|, i, b); }
      FsOneFrame(disk, disk', segBytes, fs, fs, i);
    }
  }

  lemma FsOneFrame(disk: map<nat, Blk>, disk': map<nat, Blk>, segBytes: nat, fs: seq<FileSys>,
          fs': seq<FileSys>, i: nat)
    requires segBytes > 0 && i < |fs| && i < |fs'| && fs'[i] == fs[i] && FsOnDisk(disk, segBytes, fs, i)
    requires At(FsHeads(fs'), i + 1) == At(FsHeads(fs), i + 1) && SameOn(disk, disk', fs[i].Blks())
    ensures FsOnDisk(disk', segBytes, fs', i)
  {
    SegsFrame(disk, disk', segBytes, fs[i].segs, fs[i].data);
    assert fs[i].Blks()[0] == fs[i].blk;
  }

  lemma SegsFrame(disk: map<nat, Blk>, disk': map<nat, Blk>, segBytes: nat, segs: seq<nat>, data: seq<byte>)
    requires segBytes > 0 && SegsOnDisk(disk, segBytes, segs, data) && SameOn(disk, disk', segs)
    ensures SegsOnDisk(disk', segBytes, segs, data)
  {
    forall j | 0 <= j < |segs| ensures SegOnDisk(disk', segBytes, segs, data, j) {
      assert SegOnDisk(disk, segBytes, segs, data, j) && segs[j] in segs;
    }
  }

  /** There is a next free block when fewer blocks are used than there are. */
  lemma NextFree(s: State, segBytes: nat, n: nat)
    requires segBytes > 0 && Inv(s, segBytes) && |s.used| + n <= s.max
    ensures var free := FreeList(s.used, s.max);
      && |free| >= n && Distinct(free) && (forall b :: b in free ==> b < s.max && b !in s.used)
  {
    FreeCount(s.used, s.max);
    FreeMembers(s.used, s.max);
  }

  // ----- a partition more -----

  lemma BooksAdd(parts: seq<Part>, parts': seq<Part>, fs: seq<FileSys>, used: seq<nat>, max: nat, b: nat)
    requires Books(parts, fs, used, max) && b !in used && b < max && PartBlks(parts') == PartBlks(parts) + [b]
    ensures Books(parts', fs, used + [b], max)
  {
    hide Distinct;
    DistinctAppend(used, b);
    MsInsert([RDB_BLK] + PartBlks(parts), b, FsBlks(fs, |fs|));
    assert [RDB_BLK] + PartBlks(parts') == [RDB_BLK] + PartBlks(parts) + [b];
  }

  lemma MsInsert(a: seq<nat>, b: nat, f: seq<nat>)
    ensures multiset(a + [b] + f) == multiset(a + f) + multiset{b}
  {
  }

  lemma LayoutAdd(log: Range, parts: seq<Range>, r: Range)
    requires Layout(log, parts) && Accepts(log, parts, r)
    ensures Layout(log, parts + [r])
  {
    forall i | 0 <= i < |parts| ensures Apart(parts[i], r) { AllApartAt(parts, |parts|, r, i); }
  }

  lemma LinkedParts(s: State, segBytes: nat, b: nat, rec: PartRec)
    requires segBytes > 0 && Inv(s, segBytes) && b !in s.used && rec.next == NO_BLK
    ensures var t := Linked(s, b, rec);
      && PartBlks(t.parts) == PartBlks(s.parts) + [b] && PartsOnDisk(t.disk, t.rdb.partList, t.parts)
      && SameOn(s.disk, t.disk, FsBlks(s.fs, |s.fs|)) && RDB_BLK in t.disk && t.disk[RDB_BLK] == RdbBlk(t.rdb)
  {
    hide AllFsOnDisk, Layout, Highest, Owned, FsBlks;
    var t, n := Linked(s, b, rec), |s.parts|;
    OwnedFacts(s.parts, s.fs, s.used, s.max);
    var p := PartBlks(s.parts);
    assert n > 0 ==> p[n - 1] in p;
    assert PartBlks(t.parts) == p + [b];
    forall i | 0 <= i < |t.parts| ensures PartOnDisk(t.disk, t.parts, i) {
      if i < n - 1 {
        assert PartOnDisk(s.disk, s.parts, i) && p[i] in p && p[i] != p[n - 1];
      }
    }
  }

  lemma LinkedRanges(s: State, b: nat, rec: PartRec)
    ensures Ranges(Linked(s, b, rec).parts) == Ranges(s.parts) + [Range(rec.env.lowCyl, rec.env.highCyl)]
  {
  }

  /** Adding a partition keeps every promise exactly when the code accepts the block size and the fields of
      the block take the rest: else the call ends in an error after the block has been entered as used. */
  lemma AddPartKeeps(s: State, segBytes: nat, name: seq<byte>, r: Range, fsBlockSize: nat, blockBytes: nat)
    requires segBytes > 0 && blockBytes > 0 && Inv(s, segBytes) && s.rdb.loCyl >= 0
    ensures var (o, t) := AddPart(s, name, r, fsBlockSize, blockBytes);
      && (o == RangeNotFree <==> !Accepts(s.rdb.Log(), Ranges(s.parts), r))
      && (o == NoSpace ==> |s.used| == s.max) && (o == RangeNotFree || o == NoSpace ==> t == s)
      && (o == Ok || o == Crash ==> (Inv(t, segBytes) <==> PartFits(name, r, SecPerBlk(fsBlockSize, blockBytes))))
      && (o == Ok ==> Inv(t, segBytes) && Ranges(t.parts) == Ranges(s.parts) + [r])
  {
    hide FreeList, Linked, SecPerBlk, Inv, Accepts, Highest, Distinct;
    var log := s.rdb.Log();
    UsedCount(s, segBytes);
    PositiveRange(s, r);
    if Accepts(log, Ranges(s.parts), r) && |s.used| + 1 <= s.max {
      NextFree(s, segBytes, 1);
      var b := FreeList(s.used, s.max)[0];
      assert b in FreeList(s.used, s.max);
      var spb := SecPerBlk(fsBlockSize, blockBytes);
      if PartFits(name, r, spb) {
        var rec := NewRec(s, name, r, spb, blockBytes);
        LinkedInv(s, segBytes, b, rec);
      } else {
        Leaked(s, segBytes, b);
      }
    }
  }

  /** What a new partition is: one block, the lowest that was not in use, behind all others in the chain; a name
      cut after 31 bytes; the cylinders asked for; the geometry of the drive; blocks of the disk's size in longs,
      as many together as the block size of the file system takes. */
  lemma AddedExact(s: State, name: seq<byte>, r: Range, fsBlockSize: nat, blockBytes: nat)
    requires blockBytes > 0 && s.rdb.loCyl >= 0
    requires AddPart(s, name, r, fsBlockSize, blockBytes).0 == Ok
    ensures var (t, n) := (AddPart(s, name, r, fsBlockSize, blockBytes).1, |s.parts|);
      && |t.parts| == n + 1 && t.fs == s.fs && t.max == s.max
      && var Part(b, PartRec(stored, env, next)) := t.parts[n];
      && b < s.max && b !in s.used && (forall f: nat :: f < b ==> f in s.used) && t.used == s.used + [b]
      && stored == (if |name| <= 31 then name else name[..31]) && next == 0xFFFF_FFFF
      && env.lowCyl == r.lo && env.highCyl == r.hi && env.surfaces == s.rdb.heads && env.blkPerTrk == s.rdb.secs
      && env.blockSize == blockBytes / 4 && 1 <= env.secPerBlk <= 16
      && env.secPerBlk == (if fsBlockSize == 0 then 1 else fsBlockSize / blockBytes)
      && (forall i :: 0 <= i < n - 1 ==> t.parts[i] == s.parts[i])
      && (n > 0 ==> t.parts[n - 1].blk == s.parts[n - 1].blk)
      && (n > 0 ==> t.parts[n - 1].rec == PartRec(s.parts[n - 1].rec.name, s.parts[n - 1].rec.env, b))
      && t.rdb == s.rdb.(partList := if n == 0 then b else s.rdb.partList, highRdskBlk := t.rdb.highRdskBlk)
      && (forall u :: u in t.used ==> u <= t.rdb.highRdskBlk)
  {
    hide FreeList, Highest, Accepts;
    PositiveRange(s, r);
    LowestFree(s.used, s.max, 1);
    var t := AddPart(s, name, r, fsBlockSize, blockBytes).1;
    var b := FreeList(s.used, s.max)[0];
    assert FreeList(s.used, s.max)[..1] == [b] && b in [b];
    HighestIs(t.used, |t.used|);
  }

  /** When it is added: exactly if each of its cylinders is in the logical range and in no other partition, a block
      is left, the file system's blocks have 1 to 16 sectors, and name and cylinders fit their fields. */
  lemma AddsIff(s: State, segBytes: nat, name: seq<byte>, r: Range, fsBlockSize: nat, blockBytes: nat)
    requires segBytes > 0 && blockBytes > 0 && Inv(s, segBytes) && s.rdb.loCyl >= 0
    ensures AddPart(s, name, r, fsBlockSize, blockBytes).0 == Ok <==>
      && s.rdb.loCyl <= r.lo <= r.hi <= s.rdb.hiCyl
      && (forall i :: 0 <= i < |s.parts| ==> r.hi < s.parts[i].rec.env.lowCyl || s.parts[i].rec.env.highCyl < r.lo)
      && |s.used| < s.max && |name| < 256 && r.hi < 0x1_0000_0000
      && (fsBlockSize != 0 ==> 1 <= fsBlockSize / blockBytes <= 16)
  {
    hide FreeList, Highest, Linked, Inv;
    AcceptsExact(s, r);
    PositiveRange(s, r);
    if |s.used| < s.max { NextFree(s, segBytes, 1); }
  }

  /** Blocks of the disk's size in longs: a block of the partition has the bytes of its sectors. */
  lemma BlockOfLongs(e: PartDevice.DosEnv, blockBytes: nat)
    requires blockBytes % 4 == 0 && e.blockSize == blockBytes / 4
    ensures e.blockSize * 4 == blockBytes && e.BlockBytes() == e.secPerBlk * blockBytes
  {
    assert e.blockSize * 4 == blockBytes;
    MulSwap(blockBytes, e.secPerBlk);
  }

  /** The geometry of the new partition alone, and its stored name. */
  lemma NewPartition(s: State, name: seq<byte>, r: Range, fsBlockSize: nat, blockBytes: nat)
    requires blockBytes > 0 && blockBytes % 4 == 0 && s.rdb.loCyl >= 0
    ensures var (o, t) := AddPart(s, name, r, fsBlockSize, blockBytes);
      && (o == Ok ==> |t.parts| == |s.parts| + 1)
      && (o == Ok ==> NewGeometry(t, t.parts[|s.parts|].rec.env, r, fsBlockSize, blockBytes))
      && (o == Ok ==> t.parts[|s.parts|].rec.name == if |name| <= 31 then name else name[..31])
  {
    hide AddPart, Accepts;
    var t := AddPart(s, name, r, fsBlockSize, blockBytes).1;
    if AddPart(s, name, r, fsBlockSize, blockBytes).0 == Ok {
      AddedExact(s, name, r, fsBlockSize, blockBytes);
      BlockOfLongs(t.parts[|s.parts|].rec.env, blockBytes);
    }
  }

  ghost predicate NewGeometry(t: State, e: PartDevice.DosEnv, r: Range, fsBlockSize: nat, blockBytes: nat)
    requires blockBytes > 0
  {
    && e.lowCyl == r.lo && e.highCyl == r.hi && e.surfaces == t.rdb.heads && e.blkPerTrk == t.rdb.secs
    && e.blockSize * 4 == blockBytes && e.secPerBlk == (if fsBlockSize == 0 then 1 else fsBlockSize / blockBytes)
    && e.BlockBytes() == e.secPerBlk * blockBytes
  }

  lemma AcceptsExact(s: State, r: Range)
    ensures Accepts(s.rdb.Log(), Ranges(s.parts), r) <==>
      && s.rdb.loCyl <= r.lo <= r.hi <= s.rdb.hiCyl
      && forall i :: 0 <= i < |s.parts| ==> r.hi < s.parts[i].rec.env.lowCyl || s.parts[i].rec.env.highCyl < r.lo
  {
    var rs := Ranges(s.parts);
    if forall i :: 0 <= i < |rs| ==> Apart(r, rs[i]) { AllApartIf(rs, |rs|, r); }
    if AllApart(rs, |rs|, r) {
      forall i | 0 <= i < |s.parts| ensures r.hi < s.parts[i].rec.env.lowCyl || s.parts[i].rec.env.highCyl < r.lo {
        AllApartAt(rs, |rs|, r, i);
      }
    }
  }

  lemma UsedCount(s: State, segBytes: nat)
    requires segBytes > 0 && Inv(s, segBytes)
    ensures |s.used| <= s.max
  {
    FreeCount(s.used, s.max);
  }

  lemma LinkedInv(s: State, segBytes: nat, b: nat, rec: PartRec)
    requires segBytes > 0 && Inv(s, segBytes) && b !in s.used && b < s.max && rec.next == NO_BLK
    requires Accepts(s.rdb.Log(), Ranges(s.parts), Range(rec.env.lowCyl, rec.env.highCyl))
    ensures var t := Linked(s, b, rec);
      Inv(t, segBytes) && Ranges(t.parts) == Ranges(s.parts) + [Range(rec.env.lowCyl, rec.env.highCyl)]
  {
    var t := Linked(s, b, rec);
    LinkedParts(s, segBytes, b, rec);
    LinkedRanges(s, b, rec);
    LayoutAdd(s.rdb.Log(), Ranges(s.parts), Range(rec.env.lowCyl, rec.env.highCyl));
    LinkedFields(s, b, rec);
    hide Linked, PartsOnDisk, Layout, Accepts, Highest;
    BooksAdd(s.parts, t.parts, s.fs, s.used, s.max, b);
    FsFrame(s.disk, t.disk, segBytes, s.rdb.fsList, s.fs);
  }

  lemma LinkedFields(s: State, b: nat, rec: PartRec)
    ensures var t := Linked(s, b, rec);
      && t.used == s.used + [b] && t.fs == s.fs && t.max == s.max && t.rdb.highRdskBlk == Highest(t.used, |t.used|)
      && t.rdb.fsList == s.rdb.fsList && t.rdb.rdbBlkHi == s.rdb.rdbBlkHi && t.rdb.Log() == s.rdb.Log()
  {
    hide Highest;
  }

  /** A block entered as used that belongs to nothing. */
  lemma Leaked(s: State, segBytes: nat, b: nat)
    requires segBytes > 0 && Inv(s, segBytes) && b !in s.used
    ensures !Inv(WithUsed(s, [b]), segBytes)
  {
    var t := WithUsed(s, [b]);
    assert |multiset(s.used)| == |s.used| && |multiset(t.used)| == |s.used| + 1;
    assert multiset(t.used) != multiset(Owned(s.parts, s.fs));
  }

  // ----- a partition less -----

  /** `delete_partition`: the block is bypassed in the chain and freed. */
  function DeletePart(s: State, pid: int): (Outcome, State) {
    if pid < 0 || pid >= |s.parts| then (NotFound, s) else
      var next, blk := At(PartBlks(s.parts), pid + 1), s.parts[pid].blk;
      var used := Without(s.used, blk);
      var rdb := s.rdb.(highRdskBlk := Highest(used, |used|), partList := if pid == 0 then next else s.rdb.partList);
      if pid == 0 then
        (Ok, State(s.disk[RDB_BLK := RdbBlk(rdb)], rdb, s.parts[1..], s.fs, used, s.max))
      else
        var prev := s.parts[pid - 1];
        var prev' := Part(prev.blk, prev.rec.(next := next));
        (Ok, State(s.disk[prev.blk := PartBlk(prev'.rec)][RDB_BLK := RdbBlk(rdb)], rdb,
                   s.parts[..pid - 1] + [prev'] + s.parts[pid + 1..], s.fs, used, s.max))
  }

  lemma BooksRemove(parts: seq<Part>, parts': seq<Part>, fs: seq<FileSys>, used: seq<nat>, max: nat, pid: nat)
    requires Books(parts, fs, used, max) && pid < |parts|
    requires PartBlks(parts') == PartBlks(parts)[..pid] + PartBlks(parts)[pid + 1..]
    ensures Books(parts', fs, Without(used, parts[pid].blk), max)
  {
    hide Distinct, Without, FsBlks;
    OwnedFacts(parts, fs, used, max);
    var b := parts[pid].blk;
    assert PartBlks(parts)[pid] in PartBlks(parts);
    WithoutElems(used, b);
    WithoutMultiset(used, b);
    OwnedLess(parts, parts', fs, pid);
    hide PartBlks, Owned;
  }

  lemma OwnedLess(parts: seq<Part>, parts': seq<Part>, fs: seq<FileSys>, pid: nat)
    requires pid < |parts| && PartBlks(parts') == PartBlks(parts)[..pid] + PartBlks(parts)[pid + 1..]
    ensures multiset(Owned(parts, fs)) == multiset(Owned(parts', fs)) + multiset{parts[pid].blk}
  {
    hide FsBlks;
    var p, f := PartBlks(parts), FsBlks(fs, |fs|);
    MsInsert([RDB_BLK] + p[..pid], parts[pid].blk, p[pid + 1..] + f);
    assert Owned(parts, fs) == [RDB_BLK] + p[..pid] + [parts[pid].blk] + (p[pid + 1..] + f);
    assert Owned(parts', fs) == [RDB_BLK] + p[..pid] + (p[pid + 1..] + f);
  }

  lemma LayoutRemove(log: Range, parts: seq<Range>, pid: nat)
    requires Layout(log, parts) && pid < |parts|
    ensures Layout(log, parts[..pid] + parts[pid + 1..])
  {
  }

  lemma UnlinkedParts(s: State, segBytes: nat, pid: nat)
    requires segBytes > 0 && Inv(s, segBytes) && pid < |s.parts|
    ensures var t := DeletePart(s, pid).1;
      && PartsOnDisk(t.disk, t.rdb.partList, t.parts) && SameOn(s.disk, t.disk, FsBlks(s.fs, |s.fs|))
      && RDB_BLK in t.disk && t.disk[RDB_BLK] == RdbBlk(t.rdb)
  {
    hide Highest, Without, Distinct, AllFsOnDisk, Layout;
    var t := DeletePart(s, pid).1;
    OwnedFacts(s.parts, s.fs, s.used, s.max);
    UnlinkedFields(s, pid);
    assert pid > 0 ==> PartBlks(s.parts)[pid - 1] in PartBlks(s.parts);
    forall i | 0 <= i < |t.parts| ensures PartOnDisk(t.disk, t.parts, i) {
      hide Inv, Books, PartOnDisk, DeletePart;
      UnlinkedAt(s, pid, i);
    }
    UnlinkedFirst(s, pid);
  }

  lemma UnlinkedFirst(s: State, pid: nat)
    requires pid < |s.parts| && s.rdb.partList == At(PartBlks(s.parts), 0)
    ensures DeletePart(s, pid).1.rdb.partList == At(PartBlks(DeletePart(s, pid).1.parts), 0)
  {
    hide Highest, Without;
  }

  lemma UnlinkedAt(s: State, pid: nat, i: nat)
    requires pid < |s.parts| && PartsOnDisk(s.disk, s.rdb.partList, s.parts)
    requires Distinct(PartBlks(s.parts)) && RDB_BLK !in PartBlks(s.parts) && i < |DeletePart(s, pid).1.parts|
    ensures PartOnDisk(DeletePart(s, pid).1.disk, DeletePart(s, pid).1.parts, i)
  {
    hide Highest, Without, Distinct, PartOnDisk;
    var t, p := DeletePart(s, pid).1, PartBlks(s.parts);
    var j := if i < pid then i else i + 1;
    assert PartOnDisk(s.disk, s.parts, j) && p[j] in p;
    if pid > 0 && j == pid - 1 {
      PrevRelinked(s, pid);
    } else {
      assert t.parts[i] == s.parts[j];
      if pid > 0 { Differ(p, j, pid - 1); }
      NextAfterRemoval(s, pid, i);
      PartKept(s.disk, s.parts, j, t.disk, t.parts, i);
    }
  }

  lemma NextAfterRemoval(s: State, pid: nat, i: nat)
    requires pid < |s.parts| && i < |s.parts| - 1 && i + 1 != pid
    ensures At(PartBlks(DeletePart(s, pid).1.parts), i + 1) == At(PartBlks(s.parts), if i < pid then i + 1 else i + 2)
  {
    UnlinkedFields(s, pid);
    hide DeletePart;
  }

  lemma PrevRelinked(s: State, pid: nat)
    requires 0 < pid < |s.parts| && RDB_BLK !in PartBlks(s.parts)
    ensures PartOnDisk(DeletePart(s, pid).1.disk, DeletePart(s, pid).1.parts, pid - 1)
  {
    hide Highest, Without;
    assert PartBlks(s.parts)[pid - 1] in PartBlks(s.parts);
  }

  lemma PartKept(disk: map<nat, Blk>, parts: seq<Part>, j: nat, disk': map<nat, Blk>, parts': seq<Part>, i: nat)
    requires j < |parts| && i < |parts'| && parts'[i] == parts[j] && PartOnDisk(disk, parts, j)
    requires parts[j].blk in disk ==> parts[j].blk in disk' && disk'[parts[j].blk] == disk[parts[j].blk]
    requires At(PartBlks(parts'), i + 1) == At(PartBlks(parts), j + 1)
    ensures PartOnDisk(disk', parts', i)
  {
  }

  lemma Differ(p: seq<nat>, i: nat, j: nat)
    requires Distinct(p) && i < |p| && j < |p| && i != j
    ensures p[i] != p[j]
  {
  }

  lemma UnlinkedFields(s: State, pid: nat)
    requires pid < |s.parts|
    ensures var t, p := DeletePart(s, pid).1, PartBlks(s.parts);
      && PartBlks(t.parts) == p[..pid] + p[pid + 1..]
      && Ranges(t.parts) == Ranges(s.parts)[..pid] + Ranges(s.parts)[pid + 1..]
      && t.used == Without(s.used, s.parts[pid].blk) && t.fs == s.fs && t.max == s.max
      && t.rdb.highRdskBlk == Highest(t.used, |t.used|)
      && t.rdb.fsList == s.rdb.fsList && t.rdb.rdbBlkHi == s.rdb.rdbBlkHi && t.rdb.Log() == s.rdb.Log()
  {
    hide Highest, Without;
  }

  /** Deleting a partition keeps every promise and removes exactly that partition. */
  lemma DeletePartKeeps(s: State, segBytes: nat, pid: int)
    requires segBytes > 0 && Inv(s, segBytes)
    ensures var (o, t) := DeletePart(s, pid);
      && Inv(t, segBytes) && (o == Ok <==> 0 <= pid < |s.parts|) && (o != Ok ==> t == s)
      && (o == Ok ==> Ranges(t.parts) == Ranges(s.parts)[..pid] + Ranges(s.parts)[pid + 1..])
  {
    hide Inv, Ranges, Without, Highest;
    if 0 <= pid < |s.parts| {
      UnlinkedFields(s, pid);
      UnlinkedInv(s, segBytes, pid);
    }
  }

  lemma UnlinkedInv(s: State, segBytes: nat, pid: nat)
    requires segBytes > 0 && Inv(s, segBytes) && pid < |s.parts|
    ensures Inv(DeletePart(s, pid).1, segBytes)
  {
    hide DeletePart, PartsOnDisk, Layout, Highest, Without, Books, AllFsOnDisk, SameOn, FsBlks;
    var t := DeletePart(s, pid).1;
    UnlinkedParts(s, segBytes, pid);
    UnlinkedFields(s, pid);
    LayoutRemove(s.rdb.Log(), Ranges(s.parts), pid);
    BooksRemove(s.parts, t.parts, s.fs, s.used, s.max, pid);
    FsFrame(s.disk, t.disk, segBytes, s.rdb.fsList, s.fs);
  }

  /** What a deletion does: exactly the partition with that number goes, its block is no longer in use, and only
      the link around it changes on the device. */
  lemma DeletedExact(s: State, segBytes: nat, pid: int)
    requires segBytes > 0 && Inv(s, segBytes)
    ensures var (o, t) := DeletePart(s, pid);
      && (o == Ok <==> 0 <= pid < |s.parts|) && (o != Ok ==> o == NotFound && t == s)
      && (o == Ok ==> |t.parts| == |s.parts| - 1 && t.fs == s.fs && t.max == s.max)
      && (o == Ok ==> forall i :: 0 <= i < pid - 1 ==> t.parts[i] == s.parts[i])
      && (o == Ok ==> forall i :: pid <= i < |t.parts| ==> t.parts[i] == s.parts[i + 1])
      && (o == Ok && pid > 0 ==> t.parts[pid - 1].blk == s.parts[pid - 1].blk)
      && (o == Ok && pid > 0 ==> var next := if pid + 1 < |s.parts| then s.parts[pid + 1].blk else 0xFFFF_FFFF;
           t.parts[pid - 1].rec == s.parts[pid - 1].rec.(next := next))
      && (o == Ok ==> forall b :: b in t.used <==> b in s.used && b != s.parts[pid].blk)
      && (o == Ok ==> t.rdb == s.rdb.(partList := t.rdb.partList, highRdskBlk := t.rdb.highRdskBlk))
      && (o == Ok && pid == 0 ==> t.rdb.partList == if |s.parts| > 1 then s.parts[1].blk else 0xFFFF_FFFF)
      && (o == Ok && pid > 0 ==> t.rdb.partList == s.rdb.partList)
      && (o == Ok ==> forall b :: b in s.disk && b != 0 && (pid > 0 ==> b != s.parts[pid - 1].blk) ==>
        b in t.disk && t.disk[b] == s.disk[b])
  {
    hide Highest, Without, Inv;
    if 0 <= pid < |s.parts| {
      PartUsed(s, segBytes, pid);
      WithoutElems(s.used, s.parts[pid].blk);
    }
  }

  lemma PartUsed(s: State, segBytes: nat, pid: nat)
    requires segBytes > 0 && Inv(s, segBytes) && pid < |s.parts|
    ensures s.parts[pid].blk in s.used && Distinct(s.used)
  {
    hide PartsOnDisk, AllFsOnDisk, Layout, Highest;
    OwnedFacts(s.parts, s.fs, s.used, s.max);
    assert PartBlks(s.parts)[pid] in PartBlks(s.parts);
  }

  // ----- another logical range -----

  /** A missing bound and the number 0 both mean "as it is". */
  function Bound(wanted: Option<int>, current: int): int {
    if wanted.None? || wanted.value == 0 then current else wanted.value
  }

  predicate AllWithin(parts: seq<Range>, n: nat, r: Range)
    requires n <= |parts|
  {
    n > 0 ==> AllWithin(parts, n - 1, r) && r.lo <= parts[n - 1].lo && parts[n - 1].hi <= r.hi
  }

  lemma {:induction false} AllWithinAt(parts: seq<Range>, n: nat, r: Range, i: nat)
    requires i < n <= |parts| && AllWithin(parts, n, r)
    ensures r.lo <= parts[i].lo && parts[i].hi <= r.hi
  {
    if i < n - 1 { AllWithinAt(parts, n - 1, r, i); }
  }

  /** The bounds fit the fields of the RDB block. */
  predicate CylsFit(lo: int, hi: int) { 0 <= lo && hi < 0xFFFF_FFFF }

  function Resize(s: State, newLo: Option<int>, newHi: Option<int>, adjust: bool): (Outcome, State) {
    var lo, hi := Bound(newLo, s.rdb.loCyl), Bound(newHi, s.rdb.hiCyl);
    if lo == s.rdb.loCyl && hi == s.rdb.hiCyl then (Ok, s)
    else if lo > hi then (InvalidRange, s)
    else if !AllWithin(Ranges(s.parts), |s.parts|, Range(lo, hi)) then (DoesNotFit, s)
    else if hi != s.rdb.cyls - 1 && !adjust then (NeedPhysical, s)
    else
      var cyls := if hi == s.rdb.cyls - 1 then s.rdb.cyls else if hi >= 0 then hi + 1 else 0;
      var rdb := s.rdb.(loCyl := lo, hiCyl := hi, cyls := cyls);
      // the fields are set before the block is packed
      if !CylsFit(lo, hi) then (Crash, s.(rdb := rdb))
      else (Ok, s.(rdb := rdb, disk := s.disk[RDB_BLK := RdbBlk(rdb)]))
  }

  /** The bounds are as they were, or a check refuses them, or they fit: they are out of order, or leave out a
      cylinder of a partition, or move the end of the disk without leave. */
  predicate ResizeFits(s: State, newLo: Option<int>, newHi: Option<int>, adjust: bool) {
    var lo, hi := Bound(newLo, s.rdb.loCyl), Bound(newHi, s.rdb.hiCyl);
    || (lo == s.rdb.loCyl && hi == s.rdb.hiCyl)
    || lo > hi
    || (exists i :: 0 <= i < |s.parts| && (s.parts[i].rec.env.lowCyl < lo || hi < s.parts[i].rec.env.highCyl))
    || (hi != s.rdb.cyls - 1 && !adjust)
    || CylsFit(lo, hi)
  }

  lemma AllWithinIff(parts: seq<Part>, r: Range)
    ensures AllWithin(Ranges(parts), |parts|, r) <==>
      !exists i :: 0 <= i < |parts| && (parts[i].rec.env.lowCyl < r.lo || r.hi < parts[i].rec.env.highCyl)
  {
    var rs := Ranges(parts);
    if AllWithin(rs, |rs|, r) {
      forall i | 0 <= i < |parts| ensures r.lo <= parts[i].rec.env.lowCyl && parts[i].rec.env.highCyl <= r.hi {
        AllWithinAt(rs, |rs|, r, i);
      }
    } else {
      var i := NotWithin(rs, |rs|, r);
      assert parts[i].rec.env.lowCyl < r.lo || r.hi < parts[i].rec.env.highCyl;
    }
  }

  lemma {:induction false} NotWithin(parts: seq<Range>, n: nat, r: Range) returns (i: nat)
    requires n <= |parts| && !AllWithin(parts, n, r)
    ensures i < n && (parts[i].lo < r.lo || r.hi < parts[i].hi)
  {
    if AllWithin(parts, n - 1, r) { i := n - 1; } else { i := NotWithin(parts, n - 1, r); }
  }

  /** A resize breaks the disk exactly when every check lets bounds pass that fit no field: the write then fails
      with the fields already changed. */
  lemma ResizeKeeps(s: State, segBytes: nat, newLo: Option<int>, newHi: Option<int>, adjust: bool)
    requires segBytes > 0 && Inv(s, segBytes)
    ensures var (o, t) := Resize(s, newLo, newHi, adjust);
      && t.parts == s.parts && (Inv(t, segBytes) <==> ResizeFits(s, newLo, newHi, adjust))
      && (o == Crash <==> !ResizeFits(s, newLo, newHi, adjust)) && (o != Ok && o != Crash ==> t == s)
      && (o == Ok || o == Crash ==>
        t.rdb.loCyl == Bound(newLo, s.rdb.loCyl) && t.rdb.hiCyl == Bound(newHi, s.rdb.hiCyl))
  {
    hide Distinct, Highest, AllFsOnDisk, Owned, PartOnDisk;
    ResizeFails(s, newLo, newHi, adjust);
    var (o, t) := Resize(s, newLo, newHi, adjust);
    if o == Ok && t != s {
      OwnedFacts(s.parts, s.fs, s.used, s.max);
      var rs := Ranges(s.parts);
      forall i | 0 <= i < |rs| ensures t.rdb.loCyl <= rs[i].lo && rs[i].hi <= t.rdb.hiCyl {
        AllWithinAt(rs, |rs|, t.rdb.Log(), i);
      }
      FsFrame(s.disk, t.disk, segBytes, s.rdb.fsList, s.fs);
      forall i | 0 <= i < |s.parts| ensures PartOnDisk(t.disk, s.parts, i) {
        assert PartOnDisk(s.disk, s.parts, i) && PartBlks(s.parts)[i] in PartBlks(s.parts);
        PartKept(s.disk, s.parts, i, t.disk, s.parts, i);
      }
    }
  }

  /** What a resize does: a bound that is missing or 0 stays; the checks come in their order; afterwards the logical
      range is as asked for, the physical end follows when it has to, and nothing else changes. */
  lemma ResizeExact(s: State, newLo: Option<int>, newHi: Option<int>, adjust: bool)
    ensures var (o, t) := Resize(s, newLo, newHi, adjust);
      var lo := if newLo == None || newLo == Some(0) then s.rdb.loCyl else newLo.value;
      var hi := if newHi == None || newHi == Some(0) then s.rdb.hiCyl else newHi.value;
      var same := lo == s.rdb.loCyl && hi == s.rdb.hiCyl;
      var fit := forall i :: 0 <= i < |s.parts| ==> lo <= s.parts[i].rec.env.lowCyl && s.parts[i].rec.env.highCyl <= hi;
      && (o == InvalidRange <==> !same && lo > hi)
      && (o == DoesNotFit <==> !same && lo <= hi && !fit)
      && (o == NeedPhysical <==> !same && lo <= hi && fit && hi + 1 != s.rdb.cyls && !adjust)
      && (o == Ok <==> same || (lo <= hi && fit && (hi + 1 == s.rdb.cyls || adjust) && 0 <= lo && hi < 0xFFFF_FFFF))
      && (o == Ok && same ==> t == s)
      && (o == Ok && !same ==> t.rdb == s.rdb.(loCyl := lo, hiCyl := hi, cyls := hi + 1))
      && (o == Ok && !same ==> t == s.(rdb := t.rdb, disk := s.disk[0 := RdbBlk(t.rdb)]))
      && (o == InvalidRange || o == DoesNotFit || o == NeedPhysical ==> t == s)
  {
    hide AllWithin;
    AllWithinIff(s.parts, Range(Bound(newLo, s.rdb.loCyl), Bound(newHi, s.rdb.hiCyl)));
  }

  lemma ResizeFails(s: State, newLo: Option<int>, newHi: Option<int>, adjust: bool)
    ensures Resize(s, newLo, newHi, adjust).0 == Crash <==> !ResizeFits(s, newLo, newHi, adjust)
  {
    hide AllWithin;
    AllWithinIff(s.parts, Range(Bound(newLo, s.rdb.loCyl), Bound(newHi, s.rdb.hiCyl)));
  }

  /** A new disk whose high cylinder is to be 2^32 - 1, with leave to move the end: the object has the bounds,
      its device has not. */
  lemma ResizeTooHigh(disk: map<nat, Blk>)
    ensures var s := Fresh(disk, 10, 1, 16, 2);
      var (o, t) := Resize(s, None, Some(0xFFFF_FFFF), true);
      o == Crash && t.rdb.hiCyl == 0xFFFF_FFFF && t.disk == s.disk && Inv(s, 492) && !Inv(t, 492)
  {
    FreshInv(disk, 10, 1, 16, 2, 492);
    ResizeKeeps(Fresh(disk, 10, 1, 16, 2), 492, None, Some(0xFFFF_FFFF), true);
  }

  // ----- a file system more -----

  function WroteSegs(disk: map<nat, Blk>, segBytes: nat, segs: seq<nat>, data: seq<byte>, n: nat): map<nat, Blk>
    requires n <= |segs|
  {
    if n == 0 then disk else
      var last := SegBlk(At(segs, n), Files.Piece(data, segBytes, n - 1));
      WroteSegs(disk, segBytes, segs, data, n - 1)[segs[n - 1] := last]
  }

  lemma NoneWritten(disk: map<nat, Blk>, segBytes: nat, segs: seq<nat>, data: seq<byte>)
    ensures WroteSegs(disk, segBytes, segs, data, 0) == disk
  {
  }

  lemma NextWritten(disk: map<nat, Blk>, segBytes: nat, segs: seq<nat>, data: seq<byte>, i: nat)
    requires i < |segs|
    ensures WroteSegs(disk, segBytes, segs, data, i + 1)
      == WroteSegs(disk, segBytes, segs, data, i)[segs[i] := SegBlk(At(segs, i + 1), Files.Piece(data, segBytes, i))]
  {
    hide Files.Piece, At;
  }

  lemma {:induction false} WroteSegsAt(disk: map<nat, Blk>, segBytes: nat, segs: seq<nat>, data: seq<byte>,
          n: nat, j: nat)
    requires segBytes > 0 && j < n <= |segs| && Distinct(segs)
    ensures SegOnDisk(WroteSegs(disk, segBytes, segs, data, n), segBytes, segs, data, j)
  {
    if j < n - 1 {
      WroteSegsAt(disk, segBytes, segs, data, n - 1, j);
      assert segs[j] != segs[n - 1];
    }
  }

  lemma {:induction false} WroteSegsElse(disk: map<nat, Blk>, segBytes: nat, segs: seq<nat>, data: seq<byte>,
          n: nat, b: nat)
    requires n <= |segs| && b !in segs
    ensures var w := WroteSegs(disk, segBytes, segs, data, n);
      (b in w <==> b in disk) && (b in disk ==> w[b] == disk[b])
  {
    hide Files.Piece, At;
    if n > 0 { WroteSegsElse(disk, segBytes, segs, data, n - 1, b); }
  }

  /** Blocks `blks` filled with a file system and linked behind the last one. */
  function FsLinked(s: State, blks: seq<nat>, data: seq<byte>, segBytes: nat): State
    requires |blks| > 0
  {
    var t, n := WithUsed(s, blks), |s.fs|;
    var f := FileSys(blks[0], blks[1..], data);
    var disk := WroteSegs(s.disk[f.blk := FsBlk(At(f.segs, 0), NO_BLK)], segBytes, f.segs, data, |f.segs|);
    if n == 0 then
      var rdb := t.rdb.(fsList := f.blk);
      State(disk[RDB_BLK := RdbBlk(rdb)], rdb, s.parts, [f], t.used, s.max)
    else
      var last := s.fs[n - 1];
      State(disk[last.blk := FsBlk(At(last.segs, 0), f.blk)][RDB_BLK := RdbBlk(t.rdb)], t.rdb,
            s.parts, s.fs + [f], t.used, s.max)
  }

  /** `add_filesystem`. */
  function AddFs(s: State, data: seq<byte>, segBytes: nat): (Outcome, State)
    requires segBytes > 0
  {
    var num := CeilDiv(|data|, segBytes) + 1;
    if |s.used| + num > s.max then (NoSpace, s) else
      var free := FreeList(s.used, s.max);
      if |free| < num then (Crash, s) else
        // without data there is no first segment block, which is noticed when the blocks are already entered as used
        if |data| == 0 then (Crash, WithUsed(s, free[..num])) else (Ok, FsLinked(s, free[..num], data, segBytes))
  }

  lemma FsBlksAppend(fs: seq<FileSys>, f: FileSys, n: nat)
    requires n <= |fs|
    ensures FsBlks(fs + [f], n) == FsBlks(fs, n)
  {
    if n > 0 { FsBlksAppend(fs, f, n - 1); }
  }

  lemma BooksAddFs(parts: seq<Part>, fs: seq<FileSys>, f: FileSys, used: seq<nat>, max: nat)
    requires Books(parts, fs, used, max) && Distinct(f.Blks()) && forall b :: b in f.Blks() ==> b !in used && b < max
    ensures Books(parts, fs + [f], used + f.Blks(), max)
  {
    hide Distinct;
    FsBlksAppend(fs, f, |fs|);
    assert Owned(parts, fs + [f]) == Owned(parts, fs) + f.Blks();
    DistinctConcat(used, f.Blks()) by {
      assert forall b :: b in Elems(used) ==> b !in Elems(f.Blks());
    }
  }

  lemma HeadsAppend(fs: seq<FileSys>, f: FileSys, i: nat)
    requires i < |fs|
    ensures At(FsHeads(fs + [f]), i + 1) == (if i + 1 < |fs| then At(FsHeads(fs), i + 1) else f.blk)
    ensures At(FsHeads(fs + [f]), |fs|) == f.blk && At(FsHeads(fs + [f]), |fs| + 1) == NO_BLK
  {
  }

  lemma FsBlksLast(fs: seq<FileSys>)
    requires |fs| > 0
    ensures FsBlks(fs, |fs|) == FsBlks(fs, |fs| - 1) + fs[|fs| - 1].Blks()
  {
  }

  /** The last file system's blocks are not those of the ones before it. */
  lemma LastApart(fs: seq<FileSys>, i: nat, b: nat)
    requires |fs| > 0 && Distinct(FsBlks(fs, |fs|)) && i < |fs| - 1 && b in fs[i].Blks()
    ensures b != fs[|fs| - 1].blk
  {
    hide Distinct, FsBlks;
    FsBlkIn(fs, |fs| - 1, i, b);
    FsBlksLast(fs);
    DistinctParts(FsBlks(fs, |fs| - 1), fs[|fs| - 1].Blks());
    assert fs[|fs| - 1].Blks()[0] == fs[|fs| - 1].blk;
  }

  lemma LastOwnSegs(fs: seq<FileSys>, b: nat)
    requires |fs| > 0 && Distinct(FsBlks(fs, |fs|)) && b in fs[|fs| - 1].segs
    ensures b != fs[|fs| - 1].blk
  {
    hide Distinct;
    DistinctParts(FsBlks(fs, |fs| - 1), fs[|fs| - 1].Blks());
    DistinctParts([fs[|fs| - 1].blk], fs[|fs| - 1].segs);
    assert [fs[|fs| - 1].blk][0] == fs[|fs| - 1].blk;
  }

  /** What the new blocks and the relinked last header leave on the device. */
  lemma FsLinkedDisk(s: State, blks: seq<nat>, data: seq<byte>, segBytes: nat, b: nat)
    requires segBytes > 0 && |blks| > 0 && b !in blks && b != RDB_BLK
    ensures var d := FsLinked(s, blks, data, segBytes).disk;
      if |s.fs| > 0 && b == s.fs[|s.fs| - 1].blk then b in d && d[b] == FsBlk(At(s.fs[|s.fs| - 1].segs, 0), blks[0])
      else (b in d <==> b in s.disk) && (b in s.disk ==> d[b] == s.disk[b])
  {
    hide Highest;
    WroteSegsElse(s.disk[blks[0] := FsBlk(At(blks[1..], 0), NO_BLK)], segBytes, blks[1..], data, |blks[1..]|, b);
  }

  lemma NewFsOnDisk(s: State, blks: seq<nat>, data: seq<byte>, segBytes: nat)
    requires segBytes > 0 && |blks| == CeilDiv(|data|, segBytes) + 1 && Distinct(blks) && RDB_BLK !in blks
    requires |s.fs| > 0 ==> s.fs[|s.fs| - 1].blk !in blks
    ensures var t, f := FsLinked(s, blks, data, segBytes), FileSys(blks[0], blks[1..], data);
      && t.fs == s.fs + [f] && f.blk in t.disk && t.disk[f.blk] == FsBlk(At(f.segs, 0), NO_BLK)
      && SegsOnDisk(t.disk, segBytes, f.segs, data)
  {
    hide Highest;
    var f := FileSys(blks[0], blks[1..], data);
    var d0 := s.disk[f.blk := FsBlk(At(f.segs, 0), NO_BLK)];
    var d1 := WroteSegs(d0, segBytes, f.segs, data, |f.segs|);
    assert Distinct(f.segs) && f.blk !in f.segs by {
      assert forall j :: 0 <= j < |f.segs| ==> f.segs[j] == blks[1 + j];
    }
    WroteSegsElse(d0, segBytes, f.segs, data, |f.segs|, f.blk);
    forall j | 0 <= j < |f.segs| ensures SegOnDisk(d1, segBytes, f.segs, data, j) {
      WroteSegsAt(d0, segBytes, f.segs, data, |f.segs|, j);
    }
    forall b | b in f.segs ensures b in blks { }
    SegsFrame(d1, FsLinked(s, blks, data, segBytes).disk, segBytes, f.segs, data);
  }

  lemma FsChain(s: State, segBytes: nat, blks: seq<nat>, data: seq<byte>)
    requires segBytes > 0 && Inv(s, segBytes) && |blks| == CeilDiv(|data|, segBytes) + 1 && Distinct(blks)
    requires forall b :: b in blks ==> b !in s.used
    ensures var t := FsLinked(s, blks, data, segBytes);
      AllFsOnDisk(t.disk, segBytes, t.rdb.fsList, t.fs)
  {
    hide Highest, Distinct, PartsOnDisk, Layout, WroteSegs;
    OwnedFacts(s.parts, s.fs, s.used, s.max);
    var t, f, n := FsLinked(s, blks, data, segBytes), FileSys(blks[0], blks[1..], data), |s.fs|;
    if n > 0 { FsBlkIn(s.fs, n, n - 1, s.fs[n - 1].blk); }
    NewFsOnDisk(s, blks, data, segBytes);
    forall i | 0 <= i < |t.fs| ensures FsOnDisk(t.disk, segBytes, t.fs, i) {
      if i < n {
        OldFsKept(s, segBytes, blks, data, i);
      } else if n > 0 {
        HeadsAppend(s.fs, f, n - 1);
      }
    }
  }

  lemma OldFsKept(s: State, segBytes: nat, blks: seq<nat>, data: seq<byte>, i: nat)
    requires segBytes > 0 && Inv(s, segBytes) && |blks| > 0 && (forall b :: b in blks ==> b !in s.used) && i < |s.fs|
    ensures var t := FsLinked(s, blks, data, segBytes); i < |t.fs| && FsOnDisk(t.disk, segBytes, t.fs, i)
  {
    hide Highest, Distinct, PartsOnDisk, Layout, WroteSegs;
    OwnedFacts(s.parts, s.fs, s.used, s.max);
    var t, f, n := FsLinked(s, blks, data, segBytes), FileSys(blks[0], blks[1..], data), |s.fs|;
    HeadsAppend(s.fs, f, i);
    assert FsOnDisk(s.disk, segBytes, s.fs, i);
    forall b | b in s.fs[i].Blks() && b != s.fs[n - 1].blk
      ensures b in s.disk ==> b in t.disk && t.disk[b] == s.disk[b]
    {
      FsBlkIn(s.fs, n, i, b);
      FsLinkedDisk(s, blks, data, segBytes, b);
    }
    if i < n - 1 {
      forall b | b in s.fs[i].Blks() ensures b != s.fs[n - 1].blk { LastApart(s.fs, i, b); }
      FsOneFrame(s.disk, t.disk, segBytes, s.fs, t.fs, i);
    } else {
      forall b | b in s.fs[i].segs ensures b != s.fs[n - 1].blk { LastOwnSegs(s.fs, b); }
      SegsFrame(s.disk, t.disk, segBytes, s.fs[i].segs, s.fs[i].data);
      FsBlkIn(s.fs, n, i, s.fs[i].blk);
      FsLinkedDisk(s, blks, data, segBytes, s.fs[i].blk);
    }
  }

  lemma PartsFrame(disk: map<nat, Blk>, disk': map<nat, Blk>, first: nat, parts: seq<Part>)
    requires PartsOnDisk(disk, first, parts) && SameOn(disk, disk', PartBlks(parts))
    ensures PartsOnDisk(disk', first, parts)
  {
    forall i | 0 <= i < |parts| ensures PartOnDisk(disk', parts, i) {
      assert PartOnDisk(disk, parts, i) && PartBlks(parts)[i] in PartBlks(parts);
    }
  }

  lemma FsLinkedFields(s: State, blks: seq<nat>, data: seq<byte>, segBytes: nat)
    requires |blks| > 0
    ensures var t := FsLinked(s, blks, data, segBytes);
      && t.used == s.used + blks && t.parts == s.parts && t.max == s.max
        && t.rdb.highRdskBlk == Highest(t.used, |t.used|)
      && t.rdb.partList == s.rdb.partList && t.rdb.rdbBlkHi == s.rdb.rdbBlkHi && t.rdb.Log() == s.rdb.Log()
      && RDB_BLK in t.disk && t.disk[RDB_BLK] == RdbBlk(t.rdb) && t.fs == s.fs + [FileSys(blks[0], blks[1..], data)]
  {
    hide Highest, WroteSegs;
  }

  lemma FsLinkedInv(s: State, segBytes: nat, blks: seq<nat>, data: seq<byte>)
    requires segBytes > 0 && Inv(s, segBytes) && |blks| == CeilDiv(|data|, segBytes) + 1 && Distinct(blks)
    requires forall b :: b in blks ==> b !in s.used && b < s.max
    ensures Inv(FsLinked(s, blks, data, segBytes), segBytes)
  {
    hide Highest, Distinct, FsLinked, Layout, PartsOnDisk, AllFsOnDisk;
    var t, f := FsLinked(s, blks, data, segBytes), FileSys(blks[0], blks[1..], data);
    FsLinkedFields(s, blks, data, segBytes);
    OwnedFacts(s.parts, s.fs, s.used, s.max);
    FsChain(s, segBytes, blks, data);
    forall b | b in PartBlks(s.parts) && b in s.disk ensures b in t.disk && t.disk[b] == s.disk[b] {
      if |s.fs| > 0 { FsBlkIn(s.fs, |s.fs|, |s.fs| - 1, s.fs[|s.fs| - 1].blk); }
      FsLinkedDisk(s, blks, data, segBytes, b);
    }
    PartsFrame(s.disk, t.disk, s.rdb.partList, s.parts);
    assert f.Blks() == blks;
    BooksAddFs(s.parts, s.fs, f, s.used, s.max);
  }

  lemma PrefixFacts(s: seq<nat>, n: nat)
    requires n <= |s| && Distinct(s)
    ensures Distinct(s[..n]) && forall b :: b in s[..n] ==> b in s
  {
  }

  /** Adding a file system keeps every promise exactly when it has data: without, the call ends in an
      error after the blocks have been entered as used. */
  lemma AddFsKeeps(s: State, segBytes: nat, data: seq<byte>)
    requires segBytes > 0 && Inv(s, segBytes)
    ensures var (o, t) := AddFs(s, data, segBytes);
      && (o == NoSpace <==> |s.used| + CeilDiv(|data|, segBytes) + 1 > s.max) && (o == NoSpace ==> t == s)
      && (o != NoSpace ==> (Inv(t, segBytes) <==> |data| > 0))
      && (o == Ok ==> |t.fs| == |s.fs| + 1 && t.fs[..|s.fs|] == s.fs && t.fs[|s.fs|].data == data)
  {
    hide FreeList, FsLinked, Inv, Highest, Distinct;
    var num := CeilDiv(|data|, segBytes) + 1;
    if |s.used| + num <= s.max {
      NextFree(s, segBytes, num);
      var blks := FreeList(s.used, s.max)[..num];
      PrefixFacts(FreeList(s.used, s.max), num);
      if |data| > 0 {
        FsLinkedInv(s, segBytes, blks, data);
        FsLinkedFields(s, blks, data, segBytes);
      } else {
        LeakedRun(s, segBytes, blks);
      }
    }
  }

  /** What a new file system is: the lowest blocks that were not in use, one for the header and one for each piece
      of the data, behind all other file systems. */
  lemma AddedFsExact(s: State, segBytes: nat, data: seq<byte>)
    requires segBytes > 0 && AddFs(s, data, segBytes).0 == Ok
    ensures var (t, n) := (AddFs(s, data, segBytes).1, |s.fs|);
      && |t.fs| == n + 1 && t.fs[..n] == s.fs && t.parts == s.parts && t.max == s.max && t.fs[n].data == data
      && var blks := [t.fs[n].blk] + t.fs[n].segs;
      && |data| <= (|blks| - 1) * segBytes < |data| + segBytes && t.used == s.used + blks && Ascending(blks)
      && (forall b :: b in blks ==> b < t.max && b !in s.used)
      && (forall b: nat, f :: f in blks && b < f && b !in s.used ==> b in blks)
      && t.rdb == s.rdb.(fsList := if n == 0 then blks[0] else s.rdb.fsList, highRdskBlk := t.rdb.highRdskBlk)
      && (forall u :: u in t.used ==> u <= t.rdb.highRdskBlk)
  {
    hide FreeList, Highest, WroteSegs;
    var num := CeilDiv(|data|, segBytes) + 1;
    LowestFree(s.used, s.max, num);
    CeilDivExact(|data|, segBytes, num - 1);
    var t, blks := AddFs(s, data, segBytes).1, FreeList(s.used, s.max)[..num];
    assert [blks[0]] + blks[1..] == blks;
    HighestIs(t.used, |t.used|);
  }

  lemma LeakedRun(s: State, segBytes: nat, blks: seq<nat>)
    requires segBytes > 0 && Inv(s, segBytes) && |blks| > 0
    ensures !Inv(WithUsed(s, blks), segBytes)
  {
    hide PartsOnDisk, AllFsOnDisk, Layout, Highest, Distinct;
    var t := WithUsed(s, blks);
    assert |multiset(s.used)| == |s.used| && |multiset(t.used)| == |s.used| + |blks|;
    assert multiset(t.used) != multiset(Owned(s.parts, s.fs));
  }

  // ----- the bytes of a file system -----

  /** `LoadSegBlock.get_data`: the stored size counts longs, so an odd rest is cut off. */
  function SegData(d: seq<byte>): seq<byte> { d[..|d| - |d| % 4] }

  function FsData(segBytes: nat, data: seq<byte>, n: nat): seq<byte> {
    if n == 0 then [] else FsData(segBytes, data, n - 1) + SegData(Files.Piece(data, segBytes, n - 1))
  }

  lemma ModAdd(a: nat, d: nat)
    requires a % 4 == 0
    ensures (a + d) % 4 == d % 4
  {
  }

  lemma {:induction false} TimesMod(n: nat, size: nat)
    requires size % 4 == 0
    ensures Times(n, size) % 4 == 0
  {
    if n > 0 {
      TimesMod(n - 1, size);
      ModAdd(Times(n - 1, size), size);
    }
  }

  lemma {:induction false} FsDataPieces(segBytes: nat, data: seq<byte>, n: nat)
    requires segBytes > 0 && segBytes % 4 == 0 && n < CeilDiv(|data|, segBytes)
    ensures FsData(segBytes, data, n) == data[..Files.Cut(data, segBytes, n)]
    ensures Files.Cut(data, segBytes, n) == Times(n, segBytes)
  {
    hide CeilDiv, Files.Cut, SegData;
    Files.FullCut(data, segBytes, n);
    if n > 0 {
      FsDataPieces(segBytes, data, n - 1);
      var a, b := Files.Cut(data, segBytes, n - 1), Files.Cut(data, segBytes, n);
      WholeSeg(data[a..b]);
      assert data[..a] + data[a..b] == data[..b];
    }
  }

  lemma WholeSeg(d: seq<byte>)
    ensures |d| % 4 == 0 ==> SegData(d) == d
  {
  }

  /** Reading a file system back loses up to three trailing bytes, and none exactly when its size is a
      multiple of four. */
  lemma FsDataBack(segBytes: nat, data: seq<byte>)
    requires segBytes > 0 && segBytes % 4 == 0
    ensures FsData(segBytes, data, CeilDiv(|data|, segBytes)) == SegData(data)
    ensures FsData(segBytes, data, CeilDiv(|data|, segBytes)) == data <==> |data| % 4 == 0
  {
    hide SegData;
    var n := CeilDiv(|data|, segBytes);
    SegDataWhole(data);
    if n > 0 {
      FsDataLast(segBytes, data, n);
      TimesMod(n - 1, segBytes);
      hide CeilDiv, Times, FsData;
      CutTail(data, Times(n - 1, segBytes));
    }
  }

  lemma SegDataWhole(d: seq<byte>)
    ensures SegData(d) == d <==> |d| % 4 == 0
    ensures |d| == 0 ==> SegData(d) == []
  {
  }

  lemma FsDataLast(segBytes: nat, data: seq<byte>, n: nat)
    requires segBytes > 0 && segBytes % 4 == 0 && n == CeilDiv(|data|, segBytes) > 0
    ensures var a := Times(n - 1, segBytes);
      a <= |data| && FsData(segBytes, data, n) == data[..a] + SegData(data[a..|data|])
  {
    FsDataPieces(segBytes, data, n - 1);
    Files.LastCut(data, segBytes);
    Files.FullCut(data, segBytes, n - 1);
    hide CeilDiv, Files.Cut, Times;
  }

  lemma CutTail(data: seq<byte>, a: nat)
    requires a <= |data| && a % 4 == 0
    ensures data[..a] + SegData(data[a..|data|]) == SegData(data)
  {
    ModAdd(a, |data| - a);
  }

  // ----- a fresh disk, and one found on a device -----

  function Fresh(disk: map<nat, Blk>, cyls: nat, heads: nat, secs: nat, rdbCyls: nat): State {
    var rdb := Rdb(NO_BLK, NO_BLK, heads * secs * rdbCyls - 1, rdbCyls, cyls - 1, 0, cyls, heads, secs);
    var max := heads * secs * rdbCyls;
    State(disk[RDB_BLK := RdbBlk(rdb)], rdb, [], [], [RDB_BLK], if max > 0 then max else 0)
  }

  lemma FreshInv(disk: map<nat, Blk>, cyls: nat, heads: nat, secs: nat, rdbCyls: nat, segBytes: nat)
    requires segBytes > 0 && 0 < heads * secs * rdbCyls <= NO_BLK
    ensures Inv(Fresh(disk, cyls, heads, secs, rdbCyls), segBytes)
  {
    var s := Fresh(disk, cyls, heads, secs, rdbCyls);
    assert Owned(s.parts, s.fs) == [RDB_BLK];
    assert Highest(s.used, 1) == 0;
  }

  // ----- what the device of a good disk shows -----

  /** Block 0 is the RDB; from it the partition blocks form one chain and the file system headers another, in the
      order of the objects, each ended by 2^32 - 1; the partitions' cylinders are disjoint and in the logical
      range; and exactly these blocks and the segments are in use. */
  lemma DiskExact(s: State, segBytes: nat)
    requires segBytes > 0 && Inv(s, segBytes)
    ensures 0 in s.disk && s.disk[0] == RdbBlk(s.rdb)
    ensures s.rdb.partList == if s.parts == [] then 0xFFFF_FFFF else s.parts[0].blk
    ensures s.rdb.fsList == if s.fs == [] then 0xFFFF_FFFF else s.fs[0].blk
    ensures forall i :: 0 <= i < |s.parts| ==> PartExact(s, i)
    ensures forall i, j :: 0 <= i < j < |s.parts| ==>
      || s.parts[i].rec.env.highCyl < s.parts[j].rec.env.lowCyl
      || s.parts[j].rec.env.highCyl < s.parts[i].rec.env.lowCyl
    ensures forall i :: 0 <= i < |s.fs| ==> FsExact(s, i)
    ensures Distinct(s.used) && forall b :: b in s.used ==> b < s.max == s.rdb.rdbBlkHi + 1
    ensures forall b :: b in s.used <==> b == 0 || InPart(s.parts, b) || InFs(s.fs, b)
  {
    hide Highest, SegsOnDisk, Distinct;
    var rs := Ranges(s.parts);
    assert forall i :: 0 <= i < |rs| ==> rs[i] == s.parts[i].Cyls();
    forall i | 0 <= i < |s.parts| ensures PartExact(s, i) { assert PartOnDisk(s.disk, s.parts, i); }
    forall i | 0 <= i < |s.fs| ensures FsExact(s, i) { assert FsOnDisk(s.disk, segBytes, s.fs, i); }
    forall b ensures b in s.used <==> b == 0 || InPart(s.parts, b) || InFs(s.fs, b) { UsedIs(s, segBytes, b); }
  }

  predicate PartExact(s: State, i: nat)
    requires i < |s.parts|
  {
    var p := s.parts[i];
    && p.blk in s.disk && s.disk[p.blk] == PartBlk(p.rec)
    && p.rec.next == (if i + 1 < |s.parts| then s.parts[i + 1].blk else 0xFFFF_FFFF)
    && s.rdb.loCyl <= p.rec.env.lowCyl <= p.rec.env.highCyl <= s.rdb.hiCyl
  }

  predicate FsExact(s: State, i: nat)
    requires i < |s.fs|
  {
    var f := s.fs[i];
    f.blk in s.disk && s.disk[f.blk] == FsBlk(if f.segs == [] then 0xFFFF_FFFF else f.segs[0],
                                              if i + 1 < |s.fs| then s.fs[i + 1].blk else 0xFFFF_FFFF)
  }

  ghost predicate InPart(parts: seq<Part>, b: nat) { exists i :: 0 <= i < |parts| && parts[i].blk == b }

  ghost predicate InFs(fs: seq<FileSys>, b: nat) { exists i :: 0 <= i < |fs| && (fs[i].blk == b || b in fs[i].segs) }

  lemma UsedIs(s: State, segBytes: nat, b: nat)
    requires segBytes > 0 && Inv(s, segBytes)
    ensures b in s.used <==> b == 0 || InPart(s.parts, b) || InFs(s.fs, b)
  {
    hide PartsOnDisk, AllFsOnDisk, Layout, Highest, Distinct;
    var o := Owned(s.parts, s.fs);
    assert b in s.used <==> b in multiset(s.used);
    assert b in o <==> b in multiset(o);
    OwnedIs(s.parts, s.fs, b);
  }

  lemma OwnedIs(parts: seq<Part>, fs: seq<FileSys>, b: nat)
    ensures b in Owned(parts, fs) <==> b == 0 || InPart(parts, b) || InFs(fs, b)
  {
    assert b in Owned(parts, fs) <==> b == 0 || b in PartBlks(parts) || b in FsBlks(fs, |fs|);
    FsBlksIs(fs, |fs|, b);
  }

  lemma {:induction false} FsBlksIs(fs: seq<FileSys>, n: nat, b: nat)
    requires n <= |fs|
    ensures b in FsBlks(fs, n) <==> exists i :: 0 <= i < n && (fs[i].blk == b || b in fs[i].segs)
  {
    if n > 0 {
      FsBlksIs(fs, n - 1, b);
      assert b in fs[n - 1].Blks() <==> fs[n - 1].blk == b || b in fs[n - 1].segs;
    }
  }

  /** The segments of a file system: as few as hold its data, in a chain, each full but the last. */
  lemma SegmentExact(s: State, segBytes: nat, i: nat, j: nat)
    requires segBytes > 0 && Inv(s, segBytes) && i < |s.fs| && j < |s.fs[i].segs|
    ensures var f, lo := s.fs[i], j * segBytes;
      && lo < |f.data| && (j + 1 == |f.segs| <==> lo + segBytes >= |f.data|) && f.segs[j] in s.disk
      && s.disk[f.segs[j]] == SegBlk(if j + 1 < |f.segs| then f.segs[j + 1] else 0xFFFF_FFFF,
                                     f.data[lo..if lo + segBytes <= |f.data| then lo + segBytes else |f.data|])
  {
    hide Highest, PartsOnDisk, Layout, Books;
    var f := s.fs[i];
    assert FsOnDisk(s.disk, segBytes, s.fs, i) && SegOnDisk(s.disk, segBytes, f.segs, f.data, j);
    Files.PieceAt(f.data, segBytes, j);
    TimesIsProduct(j, segBytes);
  }

  /** File systems as they are read back: whole longs of data only. */
  function Reread(fs: seq<FileSys>, n: nat): (r: seq<FileSys>)
    requires n <= |fs|
    ensures |r| == n
  {
    if n == 0 then [] else Reread(fs, n - 1) + [FileSys(fs[n - 1].blk, fs[n - 1].segs, SegData(fs[n - 1].data))]
  }

  /** What `open` makes of a device: the objects of the chains, and the used list in the order they were read. */
  function Opened(s: State): State {
    State(s.disk, s.rdb, s.parts, Reread(s.fs, |s.fs|), Owned(s.parts, s.fs), s.max)
  }

  ghost predicate WholeLongs(fs: seq<FileSys>) { forall i :: 0 <= i < |fs| ==> |fs[i].data| % 4 == 0 }

  lemma {:induction false} RereadSame(fs: seq<FileSys>, n: nat)
    requires n <= |fs| && WholeLongs(fs)
    ensures Reread(fs, n) == fs[..n]
  {
    if n > 0 {
      RereadSame(fs, n - 1);
      WholeSeg(fs[n - 1].data);
      assert fs[..n] == fs[..n - 1] + [fs[n - 1]];
    }
  }

  lemma {:induction false} HighestIs(s: seq<nat>, n: nat)
    requires n <= |s|
    ensures forall i :: 0 <= i < n ==> s[i] <= Highest(s, n)
    ensures Highest(s, n) == 0 || exists i :: 0 <= i < n && s[i] == Highest(s, n)
  {
    if n > 0 { HighestIs(s, n - 1); }
  }

  lemma HighestPerm(s: seq<nat>, t: seq<nat>)
    requires forall b :: b in s <==> b in t
    ensures Highest(s, |s|) == Highest(t, |t|)
  {
    HighestLe(s, t);
    HighestLe(t, s);
  }

  lemma HighestLe(s: seq<nat>, t: seq<nat>)
    requires forall b :: b in s ==> b in t
    ensures Highest(s, |s|) <= Highest(t, |t|)
  {
    HighestIs(s, |s|);
    HighestIs(t, |t|);
    if Highest(s, |s|) > 0 {
      var i :| 0 <= i < |s| && s[i] == Highest(s, |s|);
      assert s[i] in t;
      var j :| 0 <= j < |t| && t[j] == s[i];
    }
  }

  /** All the invariant says but for the bytes of the file systems: their chains are on the device. */
  ghost predicate Core(s: State) {
    && s.max == s.rdb.rdbBlkHi + 1 && s.max <= NO_BLK
    && Books(s.parts, s.fs, s.used, s.max) && s.rdb.highRdskBlk == Highest(s.used, |s.used|)
    && RDB_BLK in s.disk && s.disk[RDB_BLK] == RdbBlk(s.rdb)
    && Layout(s.rdb.Log(), Ranges(s.parts))
    && PartsOnDisk(s.disk, s.rdb.partList, s.parts)
    && s.rdb.fsList == At(FsHeads(s.fs), 0) && forall i :: 0 <= i < |s.fs| ==> FsLinksOk(s.disk, s.fs, i)
  }

  ghost predicate FsLinksOk(disk: map<nat, Blk>, fs: seq<FileSys>, i: nat)
    requires i < |fs|
  {
    && fs[i].blk in disk && disk[fs[i].blk] == FsBlk(At(fs[i].segs, 0), At(FsHeads(fs), i + 1))
    && forall j :: 0 <= j < |fs[i].segs| ==> SegLinked(disk, fs[i].segs, j)
  }

  predicate SegLinked(disk: map<nat, Blk>, segs: seq<nat>, j: nat)
    requires j < |segs|
  {
    segs[j] in disk && disk[segs[j]].SegBlk? && disk[segs[j]].next == At(segs, j + 1)
  }

  /** Opening the device of a disk gives the same partitions, blocks and chains, whatever order the blocks
      were allocated in; and the same file systems, exactly when each is a number of whole longs. */
  lemma OpenedInv(s: State, segBytes: nat)
    requires segBytes > 0 && Inv(s, segBytes)
    ensures Core(Opened(s)) && Opened(s).parts == s.parts
    ensures forall b :: b in Opened(s).used <==> b in s.used
    ensures Inv(Opened(s), segBytes) <==> WholeLongs(s.fs)
    ensures WholeLongs(s.fs) ==> Opened(s).fs == s.fs
  {
    hide Distinct, PartsOnDisk, Layout, Highest, Owned, WholeLongs, AllFsOnDisk;
    var o, t := Owned(s.parts, s.fs), Opened(s);
    PermDistinct(s.used, o);
    forall b ensures b in s.used <==> b in o {
      assert b in s.used <==> b in multiset(s.used);
      assert b in o <==> b in multiset(o);
    }
    HighestPerm(s.used, o);
    assert AllBelow(o, s.max);
    RereadHeads(s.fs);
    RereadOwned(s.parts, s.fs);
    RereadLinks(s, segBytes);
    RereadIff(s.disk, segBytes, s.rdb.fsList, s.fs);
  }

  lemma {:induction false} RereadAt(fs: seq<FileSys>, n: nat, i: nat)
    requires i < n <= |fs|
    ensures Reread(fs, n)[i] == FileSys(fs[i].blk, fs[i].segs, SegData(fs[i].data))
  {
    if i < n - 1 { RereadAt(fs, n - 1, i); }
  }

  lemma RereadHeads(fs: seq<FileSys>)
    ensures FsHeads(Reread(fs, |fs|)) == FsHeads(fs)
  {
    hide SegData;
    forall i | 0 <= i < |fs| ensures Reread(fs, |fs|)[i].blk == fs[i].blk { RereadAt(fs, |fs|, i); }
  }

  lemma {:induction false} SameBlks(fs: seq<FileSys>, r: seq<FileSys>, n: nat)
    requires n <= |fs| == |r| && forall i :: 0 <= i < n ==> r[i].blk == fs[i].blk && r[i].segs == fs[i].segs
    ensures FsBlks(r, n) == FsBlks(fs, n)
  {
    if n > 0 { SameBlks(fs, r, n - 1); }
  }

  lemma RereadOwned(parts: seq<Part>, fs: seq<FileSys>)
    ensures Owned(parts, Reread(fs, |fs|)) == Owned(parts, fs)
  {
    hide SegData, Reread, FsBlks;
    var r := Reread(fs, |fs|);
    forall i | 0 <= i < |fs| ensures r[i].blk == fs[i].blk && r[i].segs == fs[i].segs { RereadAt(fs, |fs|, i); }
    SameBlks(fs, r, |fs|);
  }

  lemma RereadLinks(s: State, segBytes: nat)
    requires segBytes > 0 && AllFsOnDisk(s.disk, segBytes, s.rdb.fsList, s.fs)
    ensures var r := Reread(s.fs, |s.fs|);
      s.rdb.fsList == At(FsHeads(r), 0) && forall i :: 0 <= i < |r| ==> FsLinksOk(s.disk, r, i)
  {
    hide SegData, CeilDiv, Files.Piece;
    var r := Reread(s.fs, |s.fs|);
    RereadHeads(s.fs);
    forall i | 0 <= i < |r| ensures FsLinksOk(s.disk, r, i) {
      RereadAt(s.fs, |s.fs|, i);
      assert FsOnDisk(s.disk, segBytes, s.fs, i);
      forall j | 0 <= j < |r[i].segs| ensures SegLinked(s.disk, r[i].segs, j) {
        assert SegOnDisk(s.disk, segBytes, s.fs[i].segs, s.fs[i].data, j);
      }
    }
  }

  /** The blocks of a chain determine the data. */
  lemma SegsDetermine(disk: map<nat, Blk>, segBytes: nat, segs: seq<nat>, a: seq<byte>, b: seq<byte>)
    requires segBytes > 0 && SegsOnDisk(disk, segBytes, segs, a) && SegsOnDisk(disk, segBytes, segs, b)
    ensures a == b
  {
    hide Files.Piece, CeilDiv;
    forall j | 0 <= j < |segs| ensures Files.Piece(a, segBytes, j) == Files.Piece(b, segBytes, j) {
      assert SegOnDisk(disk, segBytes, segs, a, j) && SegOnDisk(disk, segBytes, segs, b, j);
    }
    SamePieces(a, b, segBytes, |segs|);
    Files.LastCut(a, segBytes);
    Files.LastCut(b, segBytes);
    assert a[..|a|] == a && b[..|b|] == b;
  }

  lemma {:induction false} SamePieces(a: seq<byte>, b: seq<byte>, size: nat, n: nat)
    requires forall j :: 0 <= j < n ==> Files.Piece(a, size, j) == Files.Piece(b, size, j)
    ensures a[..Files.Cut(a, size, n)] == b[..Files.Cut(b, size, n)]
  {
    if n > 0 {
      SamePieces(a, b, size, n - 1);
      TimesLe(n - 1, n, size);
      Glue(a, 0, Files.Cut(a, size, n - 1), Files.Cut(a, size, n));
      Glue(b, 0, Files.Cut(b, size, n - 1), Files.Cut(b, size, n));
      assert Files.Piece(a, size, n - 1) == Files.Piece(b, size, n - 1);
    }
  }

  lemma RereadIff(disk: map<nat, Blk>, segBytes: nat, first: nat, fs: seq<FileSys>)
    requires segBytes > 0 && AllFsOnDisk(disk, segBytes, first, fs)
    ensures AllFsOnDisk(disk, segBytes, first, Reread(fs, |fs|)) <==> WholeLongs(fs)
    ensures WholeLongs(fs) ==> Reread(fs, |fs|) == fs
  {
    hide SegsOnDisk, SegData;
    var r := Reread(fs, |fs|);
    if WholeLongs(fs) {
      RereadSame(fs, |fs|);
      assert fs[..|fs|] == fs;
    } else {
      var i :| 0 <= i < |fs| && |fs[i].data| % 4 != 0;
      SegDataWhole(fs[i].data);
      RereadAt(fs, |fs|, i);
      assert FsOnDisk(disk, segBytes, fs, i);
      if FsOnDisk(disk, segBytes, r, i) { SegsDetermine(disk, segBytes, fs[i].segs, fs[i].data, r[i].data); }
    }
  }

  // ----- isolation from the RDB -----

  /** No cylinder of the logical range reaches into the RDB blocks. */
  predicate Clear(s: State) { s.rdb.loCyl * s.rdb.CylBlks() >= s.max }

  /** A partition has these cylinders, or `add_partition` would accept them for one. */
  ghost predicate Usable(s: State, r: Range) { r in Ranges(s.parts) || Accepts(s.rdb.Log(), Ranges(s.parts), r) }

  /** Sector `sec` lies in the cylinders `r`. */
  predicate InCyls(s: State, r: Range, sec: int) { r.lo * s.rdb.CylBlks() <= sec < (r.hi + 1) * s.rdb.CylBlks() }

  /** No partition has an RDB block, and none that can be added would get one. */
  ghost predicate RdbSafe(s: State) { forall r: Range, sec: int :: Usable(s, r) && InCyls(s, r, sec) ==> sec >= s.max }

  /** The RDB blocks are safe from present and future partitions exactly when the logical range starts above
      them. */
  lemma SafeIffClear(s: State, segBytes: nat)
    requires segBytes > 0 && Inv(s, segBytes) && 0 <= s.rdb.loCyl <= s.rdb.hiCyl && s.rdb.CylBlks() > 0
    ensures RdbSafe(s) <==> Clear(s)
  {
    hide Books, PartsOnDisk, AllFsOnDisk, Highest, Accepts;
    var lo, c, rs := s.rdb.loCyl, s.rdb.CylBlks(), Ranges(s.parts);
    if Clear(s) {
      forall r: Range, sec: int | Usable(s, r) && InCyls(s, r, sec) ensures sec >= s.max {
        UsableAbove(s, r);
        PartDevice.MulMono(lo, r.lo, c);
      }
    } else {
      var r := LowestUsable(s);
      PartDevice.MulMono(r.lo, lo, c);
      PartDevice.MulMono(lo, r.hi, c);
      assert InCyls(s, r, lo * c);
    }
  }

  lemma UsableAbove(s: State, r: Range)
    requires Layout(s.rdb.Log(), Ranges(s.parts)) && Usable(s, r)
    ensures s.rdb.loCyl <= r.lo
  {
  }

  /** The lowest cylinder of the logical range is a partition's or free for one. */
  lemma LowestUsable(s: State) returns (r: Range)
    requires Layout(s.rdb.Log(), Ranges(s.parts)) && s.rdb.loCyl <= s.rdb.hiCyl
    ensures Usable(s, r) && r.lo <= s.rdb.loCyl <= r.hi
  {
    var lo, rs := s.rdb.loCyl, Ranges(s.parts);
    if Covered(rs, |rs|, lo) {
      var i :| 0 <= i < |rs| && rs[i].Has(lo);
      r := rs[i];
    } else {
      r := Range(lo, lo);
      AcceptsIffFree(s.rdb.Log(), rs, r);
    }
  }

  /** A resize leaves the RDB blocks safe exactly when its low cylinder lies above them; the code does not
      compare the two. */
  lemma ResizeSafeIff(s: State, segBytes: nat, newLo: Option<int>, newHi: Option<int>, adjust: bool)
    requires segBytes > 0 && Inv(s, segBytes) && 0 <= s.rdb.loCyl <= s.rdb.hiCyl && s.rdb.CylBlks() > 0
    ensures var (o, t) := Resize(s, newLo, newHi, adjust);
      o == Ok ==> (RdbSafe(t) <==> Bound(newLo, s.rdb.loCyl) * s.rdb.CylBlks() >= s.max)
  {
    hide Inv, RdbSafe;
    ResizeKeeps(s, segBytes, newLo, newHi, adjust);
    var (o, t) := Resize(s, newLo, newHi, adjust);
    if o == Ok { SafeIffClear(t, segBytes); }
  }

  /** Ten cylinders of 16 blocks, two of them for the RDB: resized to start at cylinder 1, the disk accepts a
      partition there, on RDB blocks. */
  lemma ResizeIntoRdb(disk: map<nat, Blk>, name: seq<byte>)
    requires |name| < 256
    ensures var s := Fresh(disk, 10, 1, 16, 2);
      var (o, t) := Resize(s, Some(1), None, false);
      var (p, u) := AddPart(t, name, Range(1, 1), 0, 512);
      && o == Ok && t.rdb.loCyl == 1 && p == Ok && Ranges(u.parts) == [Range(1, 1)]
      && InCyls(u, Range(1, 1), 16) && 16 < u.max && !RdbSafe(u)
  {
    hide FreeList, Highest, Inv, Linked;
    var s := Fresh(disk, 10, 1, 16, 2);
    FreshInv(disk, 10, 1, 16, 2, 492);
    ResizeKeeps(s, 492, Some(1), None, false);
    var t := Resize(s, Some(1), None, false).1;
    NextFree(t, 492, 1);
    AddPartKeeps(t, 492, name, Range(1, 1), 0, 512);
    var u := AddPart(t, name, Range(1, 1), 0, 512).1;
    AddPartMax(t, name, Range(1, 1), 0, 512);
    assert Ranges(u.parts)[0] == Range(1, 1);
    assert Usable(u, Range(1, 1)) && InCyls(u, Range(1, 1), 16);
  }

  lemma AddPartMax(s: State, name: seq<byte>, r: CylRanges.Range, fsBlockSize: nat, blockBytes: nat)
    requires blockBytes > 0 && s.rdb.loCyl >= 0
    ensures var t := AddPart(s, name, r, fsBlockSize, blockBytes).1;
      t.max == s.max && t.rdb.CylBlks() == s.rdb.CylBlks()
  {
    hide FreeList, Highest, Accepts;
    PositiveRange(s, r);
  }

  /** On a clear disk no sector of a partition is an RDB block. */
  lemma PartsClear(s: State, segBytes: nat, i: nat, sector: int)
    requires segBytes > 0 && Inv(s, segBytes) && Clear(s) && i < |s.parts|
    requires s.parts[i].rec.env.CylBlks() == s.rdb.CylBlks() && s.parts[i].rec.env.Owns(sector)
    ensures sector >= s.max
  {
    assert Ranges(s.parts)[i] == s.parts[i].Cyls();
    PartDevice.MulMono(s.rdb.loCyl, s.parts[i].rec.env.lowCyl, s.rdb.CylBlks());
  }

  // ----- the object -----

  class RDisk {
    const blockBytes: nat
    var disk: map<nat, Blk>
    var rdb: Rdb
    var parts: seq<Part>
    var fs: seq<FileSys>
    var usedBlks: seq<nat>
    var maxBlks: nat

    /** Bytes of a load segment block behind its header. */
    function SegBytes(): int { blockBytes - 20 }

    function Now(): State
      reads this
    {
      State(disk, rdb, parts, fs, usedBlks, maxBlks)
    }

    ghost predicate Valid()
      reads this
    {
      blockBytes > 20 && blockBytes % 4 == 0 && rdb.loCyl >= 0 && Inv(Now(), SegBytes())
    }

    /** `create` on a blank or used device. */
    constructor Create(blockBytes: nat, disk: map<nat, Blk>, cyls: nat, heads: nat, secs: nat, rdbCyls: nat)
      requires blockBytes > 20 && blockBytes % 4 == 0 && 0 < heads * secs * rdbCyls <= NO_BLK && 0 < cyls <= NO_BLK
      ensures Valid() && Now() == Fresh(disk, cyls, heads, secs, rdbCyls) && this.blockBytes == blockBytes
        && Clear(Now())
      ensures rdb == Rdb(0xFFFF_FFFF, 0xFFFF_FFFF, heads * secs * rdbCyls - 1, rdbCyls, cyls - 1, 0, cyls, heads, secs)
      ensures this.disk == disk[0 := RdbBlk(rdb)] && parts == [] && fs == []
      ensures usedBlks == [0] && maxBlks == heads * secs * rdbCyls
    {
      this.blockBytes := blockBytes;
      var cylBlks := heads * secs;
      var rdbBlkHi := cylBlks * rdbCyls - 1;
      var r := Rdb(NO_BLK, NO_BLK, rdbBlkHi, rdbCyls, cyls - 1, 0, cyls, heads, secs);
      this.disk := disk[RDB_BLK := RdbBlk(r)];
      rdb := r;
      parts, fs := [], [];
      usedBlks := [RDB_BLK];
      maxBlks := rdbBlkHi + 1;
      new;
      FreshInv(disk, cyls, heads, secs, rdbCyls, SegBytes());
      MulSwap(rdbCyls, heads * secs);
    }

    /** `get_free_blocks`. */
    method GetFreeBlocks() returns (res: seq<nat>)
      ensures res == FreeList(usedBlks, maxBlks)
    {
      res := [];
      for i := 0 to maxBlks
        invariant res == FreeList(usedBlks, i)
      {
        if i !in usedBlks { res := res + [i]; }
      }
    }

    /** `_update_hi_blk`. */
    method UpdateHiBlk()
      modifies this`rdb
      ensures rdb == old(rdb).(highRdskBlk := Highest(usedBlks, |usedBlks|))
    {
      var hi := 0;
      for i := 0 to |usedBlks|
        invariant hi == Highest(usedBlks, i)
      {
        if usedBlks[i] > hi { hi := usedBlks[i]; }
      }
      rdb := rdb.(highRdskBlk := hi);
    }

    method AddPartition(name: seq<byte>, r: CylRanges.Range, fsBlockSize: nat) returns (o: Outcome)
      requires Valid()
      modifies this
      ensures (o, Now()) == AddPart(old(Now()), name, r, fsBlockSize, blockBytes)
      ensures o != Crash ==> Valid()
      ensures o == Crash ==> !Valid()
      ensures o == Ok ==> |parts| == |old(parts)| + 1
      ensures o == Ok ==> var e := parts[|parts| - 1].rec.env;
        && e.lowCyl == r.lo && e.highCyl == r.hi && e.surfaces == rdb.heads && e.blkPerTrk == rdb.secs
        && e.blockSize * 4 == blockBytes && e.secPerBlk == (if fsBlockSize == 0 then 1 else fsBlockSize / blockBytes)
        && e.BlockBytes() == e.secPerBlk * blockBytes
      ensures o == Ok ==> parts[|parts| - 1].rec.name == if |name| <= 31 then name else name[..31]
      ensures o == Ok <==>
        && old(rdb.loCyl) <= r.lo <= r.hi <= old(rdb.hiCyl)
        && (forall i :: 0 <= i < |old(parts)| ==>
          r.hi < old(parts)[i].rec.env.lowCyl || old(parts)[i].rec.env.highCyl < r.lo)
        && |old(usedBlks)| < old(maxBlks) && |name| < 256 && r.hi < 0x1_0000_0000
        && (fsBlockSize != 0 ==> 1 <= fsBlockSize / blockBytes <= 16)
    {
      hide Inv, Accepts, FreeList, Highest, Linked, Ranges, Clear;
      ghost var s := Now();
      AddsIff(s, SegBytes(), name, r, fsBlockSize, blockBytes);
      NewPartition(s, name, r, fsBlockSize, blockBytes);
      AddPartKeeps(s, SegBytes(), name, r, fsBlockSize, blockBytes);
      AddPartLog(s, name, r, fsBlockSize, blockBytes);
      PositiveRange(s, r);
      // cyl range is not free anymore or invalid
      var ok := CheckCylRange(Range(rdb.loCyl, rdb.hiCyl), Ranges(parts), r);
      if !ok { return RangeNotFree; }
      // no space left for partition block
      if |usedBlks| + 1 > maxBlks { return NoSpace; }
      // allocate block for partition
      var free := GetFreeBlocks();
      EnoughFree(s, SegBytes());
      var blkNum := free[0];
      usedBlks := usedBlks + [blkNum];
      UpdateHiBlk();
      // setup fs block size (may be multiple sectors)
      var secPerBlk := SecPerBlk(fsBlockSize, blockBytes);
      if secPerBlk < 1 || secPerBlk > 16 { return Crash; }
      // fields that do not fit
      if |name| >= 256 || r.hi > 0xFFFF_FFFF { return Crash; }
      var env := PartDevice.DosEnv(r.lo, r.hi, rdb.heads, rdb.secs, secPerBlk, blockBytes / 4);
      LinkPart(s, blkNum, PartRec(Device.CutTo(name, DRIVE_NAME), env, NO_BLK));
      o := Ok;
    }

    /** Write a partition block and link it behind the last one. */
    method LinkPart(ghost s: State, blkNum: nat, pb: PartRec)
      requires Now() == WithUsed(s, [blkNum])
      modifies this
      ensures Now() == Linked(s, blkNum, pb)
    {
      hide Highest;
      disk := disk[blkNum := PartBlk(pb)];
      // link block
      if |parts| == 0 {
        rdb := rdb.(partList := blkNum);
      } else {
        var last := parts[|parts| - 1];
        var rec := last.rec.(next := blkNum);
        parts := parts[..|parts| - 1] + [Part(last.blk, rec)];
        disk := disk[last.blk := PartBlk(rec)];
      }
      disk := disk[RDB_BLK := RdbBlk(rdb)];
      parts := parts + [Part(blkNum, pb)];
      assert |s.parts| > 0 ==> parts == s.parts[..|s.parts| - 1] + [parts[|s.parts| - 1], Part(blkNum, pb)];
    }

    method DeletePartition(pid: int) returns (o: Outcome)
      requires Valid()
      modifies this
      ensures Valid() && (o, Now()) == DeletePart(old(Now()), pid)
    {
      hide Inv, Highest, Without, Ranges;
      ghost var s := Now();
      DeletePartKeeps(s, SegBytes(), pid);
      // partition not found
      if pid < 0 || pid >= |parts| { return NotFound; }
      UnlinkedFields(s, pid);
      // unlink partition block
      var next := NO_BLK;
      if pid + 1 < |parts| { next := parts[pid + 1].blk; }
      var p := parts[pid];
      var kept := parts;
      if pid == 0 {
        rdb := rdb.(partList := next);
      } else {
        var prev := parts[pid - 1];
        var rec := prev.rec.(next := next);
        kept := parts[pid - 1 := Part(prev.blk, rec)];
        disk := disk[prev.blk := PartBlk(rec)];
      }
      // free block
      usedBlks := Without(usedBlks, p.blk);
      UpdateHiBlk();
      // write RDB
      disk := disk[RDB_BLK := RdbBlk(rdb)];
      // remove partition instance
      parts := kept[..pid] + kept[pid + 1..];
      ghost var t := DeletePart(s, pid).1;
      assert pid == 0 ==> parts == s.parts[1..];
      assert pid > 0 ==> parts == s.parts[..pid - 1] + [kept[pid - 1]] + s.parts[pid + 1..];
      o := Ok;
      assert Now() == t;
    }

    /** `resize`; the new low cylinder is not compared with the RDB area. */
    method ResizeDisk(newLo: Option<int>, newHi: Option<int>, adjust: bool) returns (o: Outcome)
      requires Valid()
      modifies this
      ensures (o, Now()) == Resize(old(Now()), newLo, newHi, adjust)
      ensures Valid() <==> ResizeFits(old(Now()), newLo, newHi, adjust)
    {
      hide Inv;
      ghost var s := Now();
      ResizeKeeps(Now(), SegBytes(), newLo, newHi, adjust);
      var lo := if newLo.None? || newLo.value == 0 then rdb.loCyl else newLo.value;
      var hi := if newHi.None? || newHi.value == 0 then rdb.hiCyl else newHi.value;
      if lo == rdb.loCyl && hi == rdb.hiCyl { return Ok; }
      if lo > hi { return InvalidRange; }
      // check partitions
      ghost var rs := Ranges(parts);
      for i := 0 to |parts|
        invariant AllWithin(rs, i, Range(lo, hi))
      {
        var r := parts[i].Cyls();
        if r.lo < lo || r.hi > hi {
          if AllWithin(rs, |rs|, Range(lo, hi)) { AllWithinAt(rs, |rs|, Range(lo, hi), i); }
          return DoesNotFit;
        }
      }
      // need to adjust physical disc?
      if hi != rdb.cyls - 1 {
        if !adjust { return NeedPhysical; }
        rdb := rdb.(cyls := if hi >= 0 then hi + 1 else 0);
      }
      rdb := rdb.(loCyl := lo, hiCyl := hi);
      // the error of `struct`
      if lo < 0 || hi >= 0xFFFF_FFFF { return Crash; }
      disk := disk[RDB_BLK := RdbBlk(rdb)];
      o := Ok;
      assert Resize(s, newLo, newHi, adjust).1 == Now();
    }

    /** `add_filesystem`. */
    method AddFilesystem(data: seq<byte>) returns (o: Outcome)
      requires Valid()
      modifies this
      ensures (o, Now()) == AddFs(old(Now()), data, SegBytes())
      ensures o == Crash <==> !Valid()
    {
      hide Inv, FreeList, Highest, WroteSegs, FsLinked;
      ghost var s := Now();
      AddFsKeeps(s, SegBytes(), data);
      AddFsLog(s, data, SegBytes());
      // get total number of blocks for fs data
      var numBlks := CeilDiv(|data|, SegBytes()) + 1;
      // check if RDB has space left
      if |usedBlks| + numBlks > maxBlks { return NoSpace; }
      // allocate blocks
      NextFree(s, SegBytes(), numBlks);
      var free := GetFreeBlocks();
      var blks := free[..numBlks];
      usedBlks := usedBlks + blks;
      UpdateHiBlk();
      // create file system
      if |blks[1..]| == 0 { return Crash; }
      WriteFs(s, blks, data);
      o := Ok;
    }

    /** Write and link a file system on its blocks. */
    method WriteFs(ghost s: State, blks: seq<nat>, data: seq<byte>)
      requires blockBytes > 20 && |blks| == CeilDiv(|data|, SegBytes()) + 1 && |blks| > 1
      requires Now() == WithUsed(s, blks)
      modifies this
      ensures Now() == FsLinked(s, blks, data, SegBytes())
    {
      hide Highest, WroteSegs, Files.Piece;
      var blkNum, segs := blks[0], blks[1..];
      disk := disk[blkNum := FsBlk(segs[0], NO_BLK)];
      var off: nat, blkOff: nat := 0, 0;
      ghost var d0 := disk;
      NoneWritten(d0, SegBytes(), segs, data);
      while off < |data|
        invariant blkOff <= |segs| && off == Times(blkOff, SegBytes()) && (off < |data| <==> blkOff < |segs|)
        invariant Now() == WithUsed(s, blks).(disk := WroteSegs(d0, SegBytes(), segs, data, blkOff))
        decreases |segs| - blkOff
      {
        Files.PieceAt(data, SegBytes(), blkOff);
        var blkLen := |data| - off;
        if blkLen > SegBytes() { blkLen := SegBytes(); }
        var blkData := data[off..off + blkLen];
        var next := if blkOff == |segs| - 1 then NO_BLK else segs[blkOff + 1];
        NextWritten(d0, SegBytes(), segs, data, blkOff);
        disk := disk[segs[blkOff] := SegBlk(next, blkData)];
        blkOff := blkOff + 1;
        off := off + SegBytes();
      }
      // link fs block
      if |fs| == 0 {
        rdb := rdb.(fsList := blkNum);
      } else {
        var last := fs[|fs| - 1];
        disk := disk[last.blk := FsBlk(At(last.segs, 0), blkNum)];
      }
      // update rdb: allocated blocks and optional link
      disk := disk[RDB_BLK := RdbBlk(rdb)];
      fs := fs + [FileSys(blkNum, segs, data)];
    }

    /** An object for a device that is still to be opened. */
    constructor (blockBytes: nat, disk: map<nat, Blk>)
      requires blockBytes > 20 && blockBytes % 4 == 0
      ensures this.blockBytes == blockBytes && this.disk == disk
    {
      this.blockBytes, this.disk := blockBytes, disk;
      rdb := Rdb(NO_BLK, NO_BLK, 0, 0, 0, 0, 0, 0, 0);
      parts, fs, usedBlks, maxBlks := [], [], [], 0;
    }

    /** `open`: False exactly when a block of a chain is not what it should be. */
    method Open(ghost ch: Chains) returns (ok: bool)
      requires blockBytes > 20 && blockBytes % 4 == 0 && Ends(disk, ch)
      modifies this
      ensures disk == old(disk) && (ok <==> Readable(disk, ch))
      ensures ok ==> Now() == Found(disk, ch)
    {
      if RDB_BLK !in disk || !disk[RDB_BLK].RdbBlk? { return false; }
      rdb := disk[RDB_BLK].rdb;
      usedBlks := [RDB_BLK];
      // read partitions
      ok, parts := ReadParts(disk, rdb.partList, ch.parts);
      if !ok { return; }
      usedBlks := usedBlks + PartBlks(parts);
      // read filesystems
      var blks;
      ok, fs, blks := ReadFs(disk, rdb.fsList, ch.heads, ch.segs);
      if !ok { return; }
      usedBlks := usedBlks + blks;
      maxBlks := if rdb.rdbBlkHi >= 0 then rdb.rdbBlkHi + 1 else 0;
    }
  }

  // ----- walking the chains of a device -----

  datatype Kind = PartKind | FsKind | SegKind

  /** The link in a block of the kind; None for any other block. */
  function Next(disk: map<nat, Blk>, kind: Kind, b: nat): Option<nat> {
    if b !in disk then None else
      match (kind, disk[b])
      case (PartKind, PartBlk(rec)) => Some(rec.next)
      case (FsKind, FsBlk(_, next)) => Some(next)
      case (SegKind, SegBlk(next, _)) => Some(next)
      case _ => None
  }

  /** The walk along the links from `first` visits `chain` and ends: at the end mark, or at a block that is
      not of the kind. */
  ghost predicate Walk(disk: map<nat, Blk>, kind: Kind, first: nat, chain: seq<nat>) {
    && first == At(chain, 0) && NO_BLK !in chain
    && (forall i :: 0 <= i < |chain| - 1 ==> Next(disk, kind, chain[i]).Some?)
    && (forall i :: 0 <= i < |chain| && Next(disk, kind, chain[i]).Some? ==>
          Next(disk, kind, chain[i]).value == At(chain, i + 1))
  }

  predicate Whole(disk: map<nat, Blk>, kind: Kind, chain: seq<nat>) {
    forall i :: 0 <= i < |chain| ==> Next(disk, kind, chain[i]).Some?
  }

  /** The blocks met from the RDB block on: partitions, file system headers, and the segments of each. */
  datatype Chains = Chains(parts: seq<nat>, heads: seq<nat>, segs: seq<seq<nat>>)

  ghost predicate FsEnds(disk: map<nat, Blk>, first: nat, heads: seq<nat>, segs: seq<seq<nat>>) {
    && Walk(disk, FsKind, first, heads) && |segs| == |heads|
    && forall i :: 0 <= i < |heads| && Next(disk, FsKind, heads[i]).Some? ==>
      Walk(disk, SegKind, disk[heads[i]].segList, segs[i])
  }

  ghost predicate Ends(disk: map<nat, Blk>, ch: Chains) {
    RDB_BLK in disk && disk[RDB_BLK].RdbBlk? ==>
      && Walk(disk, PartKind, disk[RDB_BLK].rdb.partList, ch.parts)
      && FsEnds(disk, disk[RDB_BLK].rdb.fsList, ch.heads, ch.segs)
  }

  predicate FsWhole(disk: map<nat, Blk>, heads: seq<nat>, segs: seq<seq<nat>>) {
    Whole(disk, FsKind, heads) && forall i :: 0 <= i < |segs| ==> Whole(disk, SegKind, segs[i])
  }

  predicate Readable(disk: map<nat, Blk>, ch: Chains) {
    && RDB_BLK in disk && disk[RDB_BLK].RdbBlk?
    && Whole(disk, PartKind, ch.parts) && FsWhole(disk, ch.heads, ch.segs)
  }

  function PartsAt(disk: map<nat, Blk>, chain: seq<nat>, n: nat): (r: seq<Part>)
    requires n <= |chain| && Whole(disk, PartKind, chain)
    ensures |r| == n && forall i :: 0 <= i < n ==> r[i].blk == chain[i]
  {
    if n == 0 then [] else PartsAt(disk, chain, n - 1) + [Part(chain[n - 1], disk[chain[n - 1]].rec)]
  }

  function SegsAt(disk: map<nat, Blk>, chain: seq<nat>, n: nat): seq<byte>
    requires n <= |chain| && Whole(disk, SegKind, chain)
  {
    if n == 0 then [] else SegsAt(disk, chain, n - 1) + SegData(disk[chain[n - 1]].data)
  }

  function FsAt(disk: map<nat, Blk>, heads: seq<nat>, segs: seq<seq<nat>>, n: nat): (r: seq<FileSys>)
    requires n <= |heads| == |segs| && FsWhole(disk, heads, segs)
    ensures |r| == n
  {
    if n == 0 then [] else
      FsAt(disk, heads, segs, n - 1) + [FileSys(heads[n - 1], segs[n - 1], SegsAt(disk, segs[n - 1], |segs[n - 1]|))]
  }

  /** What `open` makes of a readable device. */
  function Found(disk: map<nat, Blk>, ch: Chains): State
    requires Readable(disk, ch) && |ch.heads| == |ch.segs|
  {
    var rdb, fs := disk[RDB_BLK].rdb, FsAt(disk, ch.heads, ch.segs, |ch.heads|);
    var parts := PartsAt(disk, ch.parts, |ch.parts|);
    State(disk, rdb, parts, fs, Owned(parts, fs), if rdb.rdbBlkHi >= 0 then rdb.rdbBlkHi + 1 else 0)
  }

  /** A device is readable if all blocks met are of their kinds; each partition and file system is then found under its
      block with what that block says, and exactly the blocks met are used. */
  lemma FoundExact(disk: map<nat, Blk>, ch: Chains)
    requires |ch.heads| == |ch.segs|
    ensures Readable(disk, ch) <==>
      && 0 in disk && disk[0].RdbBlk? && (forall b :: b in ch.parts ==> b in disk && disk[b].PartBlk?)
      && (forall b :: b in ch.heads ==> b in disk && disk[b].FsBlk?)
      && (forall i :: 0 <= i < |ch.segs| ==> AllSegBlks(disk, ch.segs[i]))
    ensures Readable(disk, ch) ==> var s := Found(disk, ch);
      && s.disk == disk && disk[0] == RdbBlk(s.rdb) && s.max == (if s.rdb.rdbBlkHi < 0 then 0 else s.rdb.rdbBlkHi + 1)
      && |s.parts| == |ch.parts| && |s.fs| == |ch.heads|
      && (forall i :: 0 <= i < |s.parts| ==>
        s.parts[i].blk == ch.parts[i] && disk[ch.parts[i]] == PartBlk(s.parts[i].rec))
      && (forall i :: 0 <= i < |s.fs| ==> s.fs[i].blk == ch.heads[i] && s.fs[i].segs == ch.segs[i])
      && (forall b :: b in s.used <==> b == 0 || InPart(s.parts, b) || InFs(s.fs, b))
  {
    hide Owned, SegsAt, SegData;
    KindsOf(disk, PartKind, ch.parts);
    KindsOf(disk, FsKind, ch.heads);
    forall i | 0 <= i < |ch.segs| ensures Whole(disk, SegKind, ch.segs[i]) <==> AllSegBlks(disk, ch.segs[i]) {
      KindsOf(disk, SegKind, ch.segs[i]);
    }
    if Readable(disk, ch) {
      var s := Found(disk, ch);
      PartsFound(disk, ch.parts, |ch.parts|);
      FsFound(disk, ch.heads, ch.segs, |ch.heads|);
      forall b ensures b in s.used <==> b == 0 || InPart(s.parts, b) || InFs(s.fs, b) { OwnedIs(s.parts, s.fs, b); }
    }
  }

  predicate AllSegBlks(disk: map<nat, Blk>, chain: seq<nat>) {
    forall b :: b in chain ==> b in disk && disk[b].SegBlk?
  }

  lemma KindsOf(disk: map<nat, Blk>, kind: Kind, chain: seq<nat>)
    ensures Whole(disk, kind, chain) <==> forall b :: b in chain ==> HasKind(disk, kind, b)
  {
    if Whole(disk, kind, chain) {
      forall b | b in chain ensures HasKind(disk, kind, b) {
        var i :| 0 <= i < |chain| && chain[i] == b;
        assert Next(disk, kind, chain[i]).Some?;
      }
    } else {
      var i :| 0 <= i < |chain| && Next(disk, kind, chain[i]).None?;
      assert chain[i] in chain && !HasKind(disk, kind, chain[i]);
    }
  }

  predicate HasKind(disk: map<nat, Blk>, kind: Kind, b: nat) {
    && b in disk
    && match kind case PartKind => disk[b].PartBlk? case FsKind => disk[b].FsBlk? case SegKind => disk[b].SegBlk?
  }

  lemma {:induction false} PartsFound(disk: map<nat, Blk>, chain: seq<nat>, n: nat)
    requires n <= |chain| && Whole(disk, PartKind, chain)
    ensures var ps := PartsAt(disk, chain, n);
      forall i :: 0 <= i < n ==> chain[i] in disk && disk[chain[i]] == PartBlk(ps[i].rec)
  {
    if n > 0 {
      PartsFound(disk, chain, n - 1);
      assert Next(disk, PartKind, chain[n - 1]).Some?;
    }
  }

  lemma {:induction false} FsFound(disk: map<nat, Blk>, heads: seq<nat>, segs: seq<seq<nat>>, n: nat)
    requires n <= |heads| == |segs| && FsWhole(disk, heads, segs)
    ensures var fs := FsAt(disk, heads, segs, n);
      forall i :: 0 <= i < n ==> fs[i] == FileSys(heads[i], segs[i], SegsAt(disk, segs[i], |segs[i]|))
  {
    hide SegsAt;
    if n > 0 { FsFound(disk, heads, segs, n - 1); }
  }

  lemma WalkFacts(disk: map<nat, Blk>, kind: Kind, first: nat, chain: seq<nat>)
    requires Walk(disk, kind, first, chain)
    ensures first == At(chain, 0) && NO_BLK !in chain
    ensures forall i :: 0 <= i < |chain| && Next(disk, kind, chain[i]).Some? ==>
      Next(disk, kind, chain[i]).value == At(chain, i + 1)
  {
  }

  /** The chain of partition blocks. */
  method ReadParts(disk: map<nat, Blk>, first: nat, ghost chain: seq<nat>) returns (ok: bool, ps: seq<Part>)
    requires Walk(disk, PartKind, first, chain)
    ensures ok <==> Whole(disk, PartKind, chain)
    ensures ok ==> ps == PartsAt(disk, chain, |chain|)
  {
    hide PartBlks, Walk;
    ps := [];
    WalkFacts(disk, PartKind, first, chain);
    var partBlk := first;
    while partBlk != NO_BLK
      invariant |ps| <= |chain| && partBlk == At(chain, |ps|)
      invariant forall i :: 0 <= i < |ps| ==> Next(disk, PartKind, chain[i]).Some?
      invariant Whole(disk, PartKind, chain) ==> ps == PartsAt(disk, chain, |ps|)
      decreases |chain| - |ps|
    {
      if partBlk !in disk || !disk[partBlk].PartBlk? {
        assert Next(disk, PartKind, chain[|ps|]).None?;
        return false, ps;
      }
      var p := Part(partBlk, disk[partBlk].rec);
      assert Next(disk, PartKind, chain[|ps|]) == Some(p.rec.next);
      ps := ps + [p];
      // next partition
      partBlk := p.rec.next;
    }
    ok := true;
  }

  /** The chain of load segment blocks of one file system. */
  method ReadSegs(disk: map<nat, Blk>, first: nat, ghost chain: seq<nat>)
    returns (ok: bool, found: seq<nat>, bytes: seq<byte>)
    requires Walk(disk, SegKind, first, chain)
    ensures ok <==> Whole(disk, SegKind, chain)
    ensures ok ==> found == chain && bytes == SegsAt(disk, chain, |chain|)
  {
    hide SegData, Walk;
    found, bytes := [], [];
    WalkFacts(disk, SegKind, first, chain);
    var lsegBlk := first;
    while lsegBlk != NO_BLK
      invariant |found| <= |chain| && found == chain[..|found|] && lsegBlk == At(chain, |found|)
      invariant forall i :: 0 <= i < |found| ==> Next(disk, SegKind, chain[i]).Some?
      invariant Whole(disk, SegKind, chain) ==> bytes == SegsAt(disk, chain, |found|)
      decreases |chain| - |found|
    {
      if lsegBlk !in disk || !disk[lsegBlk].SegBlk? {
        assert Next(disk, SegKind, chain[|found|]).None?;
        return false, found, bytes;
      }
      var ls := disk[lsegBlk];
      assert Next(disk, SegKind, chain[|found|]) == Some(ls.next);
      bytes := bytes + SegData(ls.data);
      found := found + [lsegBlk];
      lsegBlk := ls.next;
    }
    ok := true;
  }

  /** The chain of file system headers. */
  method ReadFs(disk: map<nat, Blk>, first: nat, ghost heads: seq<nat>, ghost segs: seq<seq<nat>>)
    returns (ok: bool, found: seq<FileSys>, blks: seq<nat>)
    requires FsEnds(disk, first, heads, segs)
    ensures ok <==> FsWhole(disk, heads, segs)
    ensures ok ==> found == FsAt(disk, heads, segs, |heads|) && blks == FsBlks(found, |found|)
  {
    hide Walk, Whole;
    found, blks := [], [];
    var fsBlk := first;
    HeadsFacts(disk, first, heads, segs);
    while fsBlk != NO_BLK
      invariant |found| <= |heads| && fsBlk == At(heads, |found|) && blks == FsBlks(found, |found|)
      invariant forall i :: 0 <= i < |found| ==> Next(disk, FsKind, heads[i]).Some? && Whole(disk, SegKind, segs[i])
      invariant FsWhole(disk, heads, segs) ==> found == FsAt(disk, heads, segs, |found|)
      decreases |heads| - |found|
    {
      ghost var i := |found|;
      HeadsFacts(disk, first, heads, segs);
      if fsBlk !in disk || !disk[fsBlk].FsBlk? {
        NotWhole(disk, FsKind, heads, i);
        return false, found, blks;
      }
      var good, ss, data := ReadSegs(disk, disk[fsBlk].segList, segs[i]);
      if !good { return false, found, blks; }
      AppendBlks(found, FileSys(fsBlk, ss, data));
      found := found + [FileSys(fsBlk, ss, data)];
      // store used blocks
      blks := blks + ([fsBlk] + ss);
      fsBlk := disk[fsBlk].next;
    }
    HeadsWhole(disk, heads);
    ok := true;
  }

  lemma HeadsFacts(disk: map<nat, Blk>, first: nat, heads: seq<nat>, segs: seq<seq<nat>>)
    requires FsEnds(disk, first, heads, segs)
    ensures first == At(heads, 0) && NO_BLK !in heads && |segs| == |heads|
    ensures forall i :: 0 <= i < |heads| && Next(disk, FsKind, heads[i]).Some? ==>
      Next(disk, FsKind, heads[i]).value == At(heads, i + 1)
  {
  }

  lemma NotWhole(disk: map<nat, Blk>, kind: Kind, chain: seq<nat>, i: nat)
    requires i < |chain| && Next(disk, kind, chain[i]).None?
    ensures !Whole(disk, kind, chain)
  {
  }

  lemma HeadsWhole(disk: map<nat, Blk>, heads: seq<nat>)
    ensures (forall i :: 0 <= i < |heads| ==> Next(disk, FsKind, heads[i]).Some?) ==> Whole(disk, FsKind, heads)
  {
  }

  lemma AppendBlks(fs: seq<FileSys>, f: FileSys)
    ensures FsBlks(fs + [f], |fs| + 1) == FsBlks(fs, |fs|) + f.Blks()
  {
    FsBlksAppend(fs, f, |fs|);
  }

  // ----- opening the device of a disk -----

  /** The chains on the device of a disk. */
  function ChainsOf(s: State): Chains { Chains(PartBlks(s.parts), FsHeads(s.fs), SegLists(s.fs)) }

  function SegLists(fs: seq<FileSys>): (r: seq<seq<nat>>)
    ensures |r| == |fs| && forall i :: 0 <= i < |fs| ==> r[i] == fs[i].segs
  {
    seq(|fs|, i requires 0 <= i < |fs| => fs[i].segs)
  }

  /** The device of a disk can be opened, which finds the disk again (see `OpenedInv`). */
  lemma OpensBack(s: State, segBytes: nat)
    requires segBytes > 0 && segBytes % 4 == 0 && Inv(s, segBytes)
    ensures Ends(s.disk, ChainsOf(s)) && Readable(s.disk, ChainsOf(s)) && Found(s.disk, ChainsOf(s)) == Opened(s)
  {
    hide PartsOnDisk, AllFsOnDisk, Layout, Highest, Distinct, Walk, Whole, FsEnds, FsWhole, FsAt, PartsAt;
    ChainsEnd(s, segBytes);
    PartChain(s.disk, s.rdb.partList, s.parts);
    FsChains(s.disk, segBytes, s.rdb.fsList, s.fs);
    assert s.parts[..|s.parts|] == s.parts;
    RereadOwned(s.parts, s.fs);
  }

  lemma PartChain(disk: map<nat, Blk>, first: nat, parts: seq<Part>)
    requires PartsOnDisk(disk, first, parts) && forall i :: 0 <= i < |parts| ==> parts[i].blk != NO_BLK
    ensures Walk(disk, PartKind, first, PartBlks(parts)) && Whole(disk, PartKind, PartBlks(parts))
    ensures PartsAt(disk, PartBlks(parts), |parts|) == parts
  {
    var chain := PartBlks(parts);
    forall i | 0 <= i < |chain| ensures Next(disk, PartKind, chain[i]) == Some(At(chain, i + 1)) {
      assert PartOnDisk(disk, parts, i);
    }
    PartsBack(disk, parts, |parts|);
    assert parts[..|parts|] == parts;
  }

  lemma {:induction false} PartsBack(disk: map<nat, Blk>, parts: seq<Part>, n: nat)
    requires n <= |parts| && Whole(disk, PartKind, PartBlks(parts))
    requires forall i :: 0 <= i < |parts| ==> PartOnDisk(disk, parts, i)
    ensures PartsAt(disk, PartBlks(parts), n) == parts[..n]
  {
    if n > 0 {
      PartsBack(disk, parts, n - 1);
      assert PartOnDisk(disk, parts, n - 1);
    }
  }

  lemma {:induction false} SegsBack(disk: map<nat, Blk>, segBytes: nat, segs: seq<nat>, data: seq<byte>, n: nat)
    requires segBytes > 0 && n <= |segs| && SegsOnDisk(disk, segBytes, segs, data) && Whole(disk, SegKind, segs)
    ensures SegsAt(disk, segs, n) == FsData(segBytes, data, n)
  {
    hide SegData, CeilDiv, Files.Piece;
    if n > 0 {
      SegsBack(disk, segBytes, segs, data, n - 1);
      assert SegOnDisk(disk, segBytes, segs, data, n - 1);
    }
  }

  lemma SegChain(disk: map<nat, Blk>, segBytes: nat, segs: seq<nat>, data: seq<byte>)
    requires segBytes > 0 && segBytes % 4 == 0 && SegsOnDisk(disk, segBytes, segs, data) && NO_BLK !in segs
    ensures Walk(disk, SegKind, At(segs, 0), segs) && Whole(disk, SegKind, segs)
    ensures SegsAt(disk, segs, |segs|) == SegData(data)
  {
    hide SegData, CeilDiv, Files.Piece;
    forall j | 0 <= j < |segs| ensures Next(disk, SegKind, segs[j]) == Some(At(segs, j + 1)) {
      assert SegOnDisk(disk, segBytes, segs, data, j);
    }
    SegsBack(disk, segBytes, segs, data, |segs|);
    FsDataBack(segBytes, data);
  }

  /** One file system: its header links to the next, its segments are a whole chain with its data. */
  lemma OneFsChain(disk: map<nat, Blk>, segBytes: nat, fs: seq<FileSys>, i: nat)
    requires segBytes > 0 && segBytes % 4 == 0 && i < |fs| && FsOnDisk(disk, segBytes, fs, i)
    requires NO_BLK !in fs[i].Blks()
    ensures fs[i].blk != NO_BLK && Next(disk, FsKind, fs[i].blk) == Some(At(FsHeads(fs), i + 1))
    ensures Walk(disk, SegKind, disk[fs[i].blk].segList, fs[i].segs) && Whole(disk, SegKind, fs[i].segs)
    ensures SegsAt(disk, fs[i].segs, |fs[i].segs|) == SegData(fs[i].data)
  {
    hide SegsOnDisk, SegData, SegsAt, Walk, Whole;
    assert fs[i].Blks()[0] == fs[i].blk;
    assert NO_BLK !in fs[i].segs by { assert fs[i].Blks() == [fs[i].blk] + fs[i].segs; }
    SegChain(disk, segBytes, fs[i].segs, fs[i].data);
  }

  lemma FsChains(disk: map<nat, Blk>, segBytes: nat, first: nat, fs: seq<FileSys>)
    requires segBytes > 0 && segBytes % 4 == 0 && AllFsOnDisk(disk, segBytes, first, fs)
    requires forall i :: 0 <= i < |fs| ==> NO_BLK !in fs[i].Blks()
    ensures FsEnds(disk, first, FsHeads(fs), SegLists(fs)) && FsWhole(disk, FsHeads(fs), SegLists(fs))
    ensures FsAt(disk, FsHeads(fs), SegLists(fs), |fs|) == Reread(fs, |fs|)
  {
    hide FsOnDisk, SegData, SegsAt, FsAt, Reread, At;
    var heads, segs := FsHeads(fs), SegLists(fs);
    forall i | 0 <= i < |fs|
      ensures heads[i] != NO_BLK && Next(disk, FsKind, heads[i]) == Some(At(heads, i + 1))
      ensures Walk(disk, SegKind, disk[heads[i]].segList, segs[i]) && Whole(disk, SegKind, segs[i])
    {
      hide Walk, Whole;
      OneFsChain(disk, segBytes, fs, i);
    }
    FsBack(disk, segBytes, fs, |fs|);
  }

  lemma {:induction false} FsBack(disk: map<nat, Blk>, segBytes: nat, fs: seq<FileSys>, n: nat)
    requires segBytes > 0 && segBytes % 4 == 0 && n <= |fs|
    requires forall i :: 0 <= i < |fs| ==> FsOnDisk(disk, segBytes, fs, i) && NO_BLK !in fs[i].Blks()
    requires FsWhole(disk, FsHeads(fs), SegLists(fs))
    ensures FsAt(disk, FsHeads(fs), SegLists(fs), n) == Reread(fs, n)
  {
    hide FsOnDisk, SegData, SegsAt, Walk, Whole;
    if n > 0 {
      FsBack(disk, segBytes, fs, n - 1);
      OneFsChain(disk, segBytes, fs, n - 1);
    }
  }

  /** No block number in use is the end mark of the chains. */
  lemma ChainsEnd(s: State, segBytes: nat)
    requires segBytes > 0 && Inv(s, segBytes)
    ensures RDB_BLK in s.disk && s.disk[RDB_BLK] == RdbBlk(s.rdb)
    ensures PartsOnDisk(s.disk, s.rdb.partList, s.parts) && AllFsOnDisk(s.disk, segBytes, s.rdb.fsList, s.fs)
    ensures forall i :: 0 <= i < |s.parts| ==> s.parts[i].blk != NO_BLK
    ensures forall i :: 0 <= i < |s.fs| ==> NO_BLK !in s.fs[i].Blks()
    ensures s.max == s.rdb.rdbBlkHi + 1
  {
    hide Distinct, PartsOnDisk, AllFsOnDisk, Layout, Highest;
    OwnedFacts(s.parts, s.fs, s.used, s.max);
    forall i | 0 <= i < |s.parts| ensures s.parts[i].blk != NO_BLK { assert PartBlks(s.parts)[i] in s.used; }
    forall i | 0 <= i < |s.fs| ensures NO_BLK !in s.fs[i].Blks() {
      if NO_BLK in s.fs[i].Blks() { FsBlkIn(s.fs, |s.fs|, i, NO_BLK); }
    }
  }

  lemma AddFsLog(s: State, data: seq<byte>, segBytes: nat)
    requires segBytes > 0
    ensures AddFs(s, data, segBytes).1.rdb.Log() == s.rdb.Log()
  {
    hide FreeList, Highest, WroteSegs;
  }

  lemma MulSwap(a: int, b: int)
    ensures a * b == b * a
  {
  }

  lemma EnoughFree(s: State, segBytes: nat)
    requires segBytes > 0 && Inv(s, segBytes) && |s.used| + 1 <= s.max
    ensures |FreeList(s.used, s.max)| > 0
  {
    NextFree(s, segBytes, 1);
  }

  lemma PositiveRange(s: State, r: CylRanges.Range)
    requires s.rdb.loCyl >= 0
    ensures Accepts(s.rdb.Log(), Ranges(s.parts), r) ==> 0 <= r.lo <= r.hi <= s.rdb.hiCyl
  {
  }

  lemma AddPartLog(s: State, name: seq<byte>, r: CylRanges.Range, fsBlockSize: nat, blockBytes: nat)
    requires blockBytes > 0 && s.rdb.loCyl >= 0
    ensures AddPart(s, name, r, fsBlockSize, blockBytes).1.rdb.Log() == s.rdb.Log()
  {
    hide FreeList, Highest, Accepts;
  }
}
