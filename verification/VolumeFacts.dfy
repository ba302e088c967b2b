/** Facts about the volume state that the operations of `Volume` rest on. */
module VolumeFacts {
  import opened Bytes
  import opened Seqs
  import opened Device
  import FileNames
  import opened FileLayout
  import opened BitmapStore
  import opened VolumeState
  import opened VolumeSteps
  import VolumeRemoval
  import opened VolumeLookup
  import opened VolumeSpec

  /** What an operation takes from outside: the clock and its options. */
  datatype Env = Env(now: Time, wipe: bool, cache: bool)

  /** `MetaInfo()` with the default protection and the current time. */
  function DefaultMeta(now: Time): Meta { Meta(0, [], now.days, now.mins, now.ticks) }

  function Stamped(m: Meta, now: Time): Meta { Meta(m.protect, m.comment, now.days, now.mins, now.ticks) }

  /** `change_meta_info` with a modification time. */
  function StampBlock(b: Block, now: Time): Block
    requires b.Root? || b.UserDir?
  {
    match b
    case Root(name, table, ptrs, ext, meta, disk, create, fsType) =>
      Root(name, table, ptrs, ext, Stamped(meta, now), disk, create, fsType)
    case UserDir(key, parent, name, chain, table, meta) =>
      UserDir(key, parent, name, chain, table, Stamped(meta, now))
  }

  /** `update_disk_time`. */
  function StampDisk(b: Block, now: Time): Block
    requires b.Root?
  {
    match b
    case Root(name, table, ptrs, ext, meta, _, create, fsType) =>
      Root(name, table, ptrs, ext, meta, now, create, fsType)
  }

  lemma StampShape(n: Node, m: Node)
    requires n.DirNode? && m.DirNode? && m.up == n.up && m.entries == n.entries && m.buckets == n.buckets
    requires n.block.Root? || n.block.UserDir?
    requires exists now: Time ::
      m.block == StampBlock(n.block, now) || (n.block.Root? && m.block == StampDisk(n.block, now))
    ensures SameShape(n, m) && m.Link() == n.Link() && m.DirNode?
  {
  }

  /** A stamped directory block keeps its shape and still fits its block. */
  lemma StampFits(b: Block, now: Time, n: nat, num: nat)
    requires (b.Root? || b.UserDir?) && Storable(b, n) && KeyOk(num, b)
    ensures Storable(StampBlock(b, now), n) && KeyOk(num, StampBlock(b, now))
    ensures b.Root? ==> Storable(StampDisk(b, now), n)
  {
  }

  /** So does one with another entry in its hash table, and a header with another chain link. */
  lemma TableFits(b: Block, h: nat, id: nat, n: nat, num: nat)
    requires (b.Root? || b.UserDir?) && Storable(b, n) && KeyOk(num, b) && id < 0x1_0000_0000
    requires h < n - 56
    ensures var t := if b.Root? then b.rootTable else b.dirTable;
      |t| == n - 56 && Storable(TableBlock(b, t[h := id]), n) && KeyOk(num, TableBlock(b, t[h := id]))
  {
  }

  lemma LinkFits(b: Block, next: nat, n: nat, num: nat)
    requires (b.UserDir? || b.FileHeader?) && Storable(b, n) && KeyOk(num, b) && next < 0x1_0000_0000
    ensures Storable(LinkBlock(b, next), n) && KeyOk(num, LinkBlock(b, next))
  {
  }

  /** Every node's block is on the device, so it fits. */
  lemma NodeFits(c: Config, v: Vol, x: Index, id: nat)
    requires c.Valid() && Inv(c, v, x) && id in v.nodes && DiskSound(v.disk, c.g.blockLongs)
    ensures Storable(v.nodes[id].block, c.g.blockLongs) && KeyOk(id, v.nodes[id].block)
  {
    hide Inv, Storable, KeyOk;
    HeaderOwned(c, v, x, id);
  }

  lemma StampedInv(c: Config, v: Vol, x: Index, d: nat, now: Time)
    requires c.Valid() && Inv(c, v, x) && IsDirNode(v, x, d)
    ensures v.nodes[d].block.Root? || v.nodes[d].block.UserDir?
    ensures var m := v.nodes[d].WithBlock(StampBlock(v.nodes[d].block, now)); Inv(c, Replaced(v, d, m), x) && m.DirNode?
  {
    hide Inv, FileNames.Hash, DirOk;
    DirFacts(c, v, x, d);
    var m := v.nodes[d].WithBlock(StampBlock(v.nodes[d].block, now));
    StampShape(v.nodes[d], m);
    ReplacedInv(c, v, x, d, m);
  }

  lemma DiskStampedInv(c: Config, v: Vol, x: Index, now: Time)
    requires c.Valid() && Inv(c, v, x)
    ensures c.root in v.nodes && v.nodes[c.root].block.Root?
    ensures var m := v.nodes[c.root].WithBlock(StampDisk(v.nodes[c.root].block, now));
      Inv(c, Replaced(v, c.root, m), x)
  {
    hide Inv;
    RootPath(c, v, x);
    var m := v.nodes[c.root].WithBlock(StampDisk(v.nodes[c.root].block, now));
    StampShape(v.nodes[c.root], m);
    ReplacedInv(c, v, x, c.root, m);
  }

  /** Blocks taken for nothing are lost: no choice of entries accounts for them. */
  lemma LeakBreaks(c: Config, v: Vol, x: Index, gone: set<nat>)
    requires c.Valid() && Inv(c, v, x) && gone <= v.free && gone != {}
    ensures !Inv(c, v.(free := v.free - gone), x)
  {
    hide Inv, FreeOk;
    var b :| b in gone;
    FreeUnowned(c, v, x, b);
    var v' := v.(free := v.free - gone);
    if Inv(c, v', x) { UsedOwned(c, v', x, b); }
  }

  lemma UsedOwned(c: Config, v: Vol, x: Index, b: nat)
    requires c.Valid() && Inv(c, v, x) && InRange(c.g, b) && b !in v.free && b !in c.sys
    ensures b in x.owner
  {
    hide AllLive, OwnerOk, IdsOk, Balanced;
  }

  lemma NoRoot(c: Config, v: Vol, x: Index)
    requires c.Valid() && v.nodes == map[]
    ensures !Inv(c, v, x)
  {
  }

  /** A node whose block is not what the device holds. */
  lemma UnmirroredBreaks(c: Config, v: Vol, x: Index, id: nat)
    requires c.Valid() && id in v.nodes && !(id in v.disk && v.disk[id] == v.nodes[id].block)
    ensures !Inv(c, v, x)
  {
    hide Inv;
    if Inv(c, v, x) { HeaderOwned(c, v, x, id); }
  }

  /** Block numbers of nodes, free blocks and buckets fit a long. */
  lemma BucketLongs(c: Config, v: Vol, x: Index, d: nat, h: nat)
    requires c.Valid() && Inv(c, v, x) && IsDirNode(v, x, d) && h < |v.nodes[d].buckets|
    ensures AreLongs(v.nodes[d].buckets[h])
  {
    hide Inv;
    forall i | 0 <= i < |v.nodes[d].buckets[h]| ensures v.nodes[d].buckets[h][i] < 0x1_0000_0000 {
      BucketIsChild(c, v, x, d, h, i);
      NodeInRange(c, v, x, v.nodes[d].buckets[h][i]);
    }
  }

  lemma NodeInRange(c: Config, v: Vol, x: Index, id: nat)
    requires c.Valid() && Inv(c, v, x) && id in v.nodes
    ensures InRange(c.g, id) && id < 0x1_0000_0000
  {
    hide Inv;
    HeaderOwned(c, v, x, id);
    OwnerOf(c, v, x, id, id);
  }

  lemma FreeLongs(c: Config, v: Vol, x: Index, blks: seq<nat>)
    requires c.Valid() && Inv(c, v, x) && Elems(blks) <= v.free
    ensures AreLongs(blks)
  {
    hide Inv;
    forall i | 0 <= i < |blks| ensures blks[i] < 0x1_0000_0000 {
      assert blks[i] in Elems(blks);
      FreeUnowned(c, v, x, blks[i]);
    }
  }

  /** The new directory block and when it can be written and kept. */
  lemma NewDirFits(ud: Block, n: nat, h: nat)
    requires ud.UserDir? && 56 < n < 0x1000_0000 && ud.dirTable == ZeroNums(n - 56)
    requires ud.ownKey < 0x1_0000_0000 && ud.parent < 0x1_0000_0000 && ud.hashChain < 0x1_0000_0000
    ensures Writable(ud, n) <==> EntryWrites(ud.name, ud.meta, Folder)
    ensures Storable(ud, n) <==> EntryFits(ud.name, ud.meta, Folder)
  {
  }

  lemma NewHeaderFits(fhb: Block, n: nat, data: seq<byte>)
    requires fhb.FileHeader? && fhb.byteSize == |data| && (Writable(fhb, n) <==> HeaderFits(fhb.name, |data|, fhb.meta))
    ensures HeaderFits(fhb.name, |data|, fhb.meta) <==> EntryWrites(fhb.name, fhb.meta, Contents(data))
    ensures EntryWrites(fhb.name, fhb.meta, Contents(data)) ==>
      (Storable(fhb, n) <==> EntryFits(fhb.name, fhb.meta, Contents(data)))
    ensures EntryFits(fhb.name, fhb.meta, Contents(data)) ==> EntryWrites(fhb.name, fhb.meta, Contents(data))
  {
  }

  /** What the blocks of a creation and its directory are before it. */
  lemma CreateReady(c: Config, v: Vol, x: Index, d: nat, h: nat, blks: seq<nat>)
    requires c.Valid() && Inv(c, v, x) && IsDirNode(v, x, d) && Elems(blks) <= v.free && |blks| > 0
    requires h < |v.nodes[d].buckets| && DiskSound(v.disk, c.g.blockLongs)
    ensures IsDir(c, v.nodes[d]) && AreLongs(blks) && d < 0x1_0000_0000
    ensures At(v.nodes[d].buckets[h], 0) < 0x1_0000_0000
    ensures Storable(v.nodes[d].block, c.g.blockLongs) && KeyOk(d, v.nodes[d].block)
    ensures c.root in v.nodes && v.nodes[c.root].DirNode? && v.nodes[c.root].block.Root?
    ensures Storable(v.nodes[c.root].block, c.g.blockLongs) && KeyOk(c.root, v.nodes[c.root].block)
    ensures forall i :: 0 <= i < |blks| ==> blks[i] !in v.nodes && blks[i] < 0x1_0000_0000
  {
    hide Inv, DirOk, Storable, KeyOk, DiskSound;
    DirFacts(c, v, x, d);
    FreeLongs(c, v, x, blks);
    NodeInRange(c, v, x, d);
    BucketLongs(c, v, x, d, h);
    NodeFits(c, v, x, d);
    RootPath(c, v, x);
    NodeFits(c, v, x, c.root);
    forall i | 0 <= i < |blks| ensures blks[i] !in v.nodes {
      assert blks[i] in Elems(blks);
      FreeUnowned(c, v, x, blks[i]);
    }
  }

  lemma NewFileFits(g: Geometry, blks: seq<nat>, id: nat, d: nat, name: seq<byte>, chain: nat, data: seq<byte>,
                    ext: seq<nat>, dat: seq<nat>, meta: Meta)
    requires g.Valid() && AreLongs(blks) && FileBlocks(id, ext, dat) == blks
    requires d < 0x1_0000_0000 && chain < 0x1_0000_0000
    ensures var fhb := HeaderRec(g, id, d, name, chain, |data|, ext, dat, meta);
      && fhb.FileHeader? && fhb.name == name && fhb.ownKey == id && fhb.parent == d && fhb.hashChain == chain
      && fhb.byteSize == |data| && fhb.meta == meta
      && (HeaderFits(name, |data|, meta) <==> EntryWrites(name, meta, Contents(data)))
      && (EntryWrites(name, meta, Contents(data)) ==>
        (Trimmed(fhb) == fhb <==> EntryFits(name, meta, Contents(data))))
      && (EntryFits(name, meta, Contents(data)) ==> EntryWrites(name, meta, Contents(data)))
  {
    hide Piece, Trimmed, NumbersFit;
    assert id == blks[0] && ext == blks[1..1 + |ext|] && dat == blks[1 + |ext|..];
    SubLongs(blks, 1, 1 + |ext|);
    SubLongs(blks, 1 + |ext|, |blks|);
    HeaderRecFits(g, id, d, name, chain, |data|, ext, dat, meta);
    var fhb := HeaderRec(g, id, d, name, chain, |data|, ext, dat, meta);
    NewHeaderFits(fhb, g.blockLongs, data);
    if Writable(fhb, g.blockLongs) { TrimmedIff(fhb, g.blockLongs); }
  }

  /** Writing a file puts its header in place and leaves every other node's block. */
  lemma FileWritten(g: Geometry, ffs: bool, disk: map<nat, Block>, blks: seq<nat>, header: Block, id: nat,
                    ext: seq<nat>, dat: seq<nat>, data: seq<byte>, b: nat)
    requires g.Valid() && FileBlocks(id, ext, dat) == blks && Distinct(blks) && CountsOk(g, ffs, ext, dat, |data|)
    requires b !in blks
    ensures var r := WroteFile(g, ffs, disk, header, id, ext, dat, data);
      && id in r && r[id] == header && id == blks[0] && (b in r <==> b in disk) && (b in disk ==> r[b] == disk[b])
  {
    hide WroteFile, Distinct, CountsOk, BodyOnDisk;
    WroteFileOk(g, ffs, disk, header, id, ext, dat, data);
    WroteFileElse(g, ffs, disk, header, id, ext, dat, data, b);
  }

  lemma RemoveReady(c: Config, v: Vol, x: Index, r: VolumeRemoval.Removal)
    requires c.Valid() && Inv(c, v, x) && VolumeRemoval.Removable(c, v, r) && DiskSound(v.disk, c.g.blockLongs)
    ensures r.dir in v.nodes && IsDir(c, v.nodes[r.dir]) && r.bucket < |v.nodes[r.dir].buckets|
    ensures Storable(v.nodes[r.dir].block, c.g.blockLongs) && KeyOk(r.dir, v.nodes[r.dir].block)
    ensures AreLongs(v.nodes[r.dir].buckets[r.bucket])
    ensures r.pos > 0 ==> r.pos <= |v.nodes[r.dir].buckets[r.bucket]|
    ensures r.pos > 0 ==> var prev := v.nodes[r.dir].buckets[r.bucket][r.pos - 1];
      prev in v.nodes && Storable(v.nodes[prev].block, c.g.blockLongs) && KeyOk(prev, v.nodes[prev].block)
  {
    hide Inv, Storable, KeyOk, DiskSound, FileNames.Hash;
    HeaderOwned(c, v, x, r.dir);
    NodeFits(c, v, x, r.dir);
    BucketLongs(c, v, x, r.dir, r.bucket);
    if r.pos > 0 { NodeFits(c, v, x, v.nodes[r.dir].buckets[r.bucket][r.pos - 1]); }
  }

  lemma NextLong(names: seq<nat>, pos: nat, next: nat)
    requires AreLongs(names) && pos < |names| && next == if pos == |names| - 1 then 0 else names[pos + 1]
    ensures next < 0x1_0000_0000
  {
  }

  lemma InsideDevice(g: Geometry, blks: seq<nat>)
    requires forall b :: b in blks ==> InRange(g, b)
    ensures Elems(blks) * Range(g.reserved, g.numBlocks) == Elems(blks)
  {
    hide Range;
    forall b | b in blks ensures b in Range(g.reserved, g.numBlocks) { InRangeSet(g.reserved, g.numBlocks, b); }
  }

  lemma NewRootFits(blk: Block, n: nat)
    requires blk.Root? && 56 < n < 0x1000_0000 && blk.rootTable == ZeroNums(n - 56)
    requires blk.bitmapPtrs == Zeros(ROOT_PTRS) && blk.bitmapExt == 0 && blk.meta == RootMeta(blk.meta)
    ensures NumbersFit(blk, n)
  {
  }

  lemma LostCount(free: set<nat>, blks: seq<nat>)
    requires Distinct(blks) && Elems(blks) <= free && |blks| > 0
    ensures |free - Elems(blks)| + |blks| == |free| && Elems(blks) != {}
  {
    hide Distinct;
    DistinctCard(blks);
    SubsetCard(Elems(blks), free);
    assert blks[0] in Elems(blks);
  }

  // ----- a fresh volume -----

  /** `calc_root_blk`. */
  function RootNum(g: Geometry): nat { g.numBlocks / 2 }

  function ZeroNums(n: nat): (r: seq<nat>)
    ensures |r| == n && forall h :: 0 <= h < n ==> r[h] == 0
  {
    seq(n, _ => 0)
  }

  function NoBuckets(n: nat): (r: seq<seq<nat>>)
    ensures |r| == n && forall h :: 0 <= h < n ==> r[h] == []
  {
    seq(n, _ => [])
  }

  ghost function FreshConfig(g: Geometry, ffs: bool, intl: bool, ptrs: seq<nat>, ext: nat): (c: Config)
    requires g.Valid() && g.reserved <= RootNum(g)
    requires RootNum(g) + NumExt(g) + NumBitmapBlks(g) < g.numBlocks
    ensures c.Valid()
  {
    var root := RootNum(g);
    Config(g, ffs, intl, root, SysBlocks(g, root) - {root}, g.numBlocks - g.reserved - NumExt(g) - NumBitmapBlks(g),
           ptrs, ext)
  }

  ghost function FreshIndex(root: nat): Index {
    Index(map[root := []], map[[] := root], map[[] := Folder], map[root := {root}], map[root := root])
  }

  lemma CreatedApart(g: Geometry, root: nat, exts: seq<ExtBlock>, bms: seq<nat>)
    requires g.Valid() && Placed(g, root, exts, bms)
    ensures Apart(root, exts, bms)
    ensures forall b :: InStore(b, root, exts, bms) ==> b in SysBlocks(g, root)
    ensures DataBytes(g) == Times(|bms|, BlkBytes(g))
  {
    hide NumExt, NumBitmapBlks;
    RangeElems(root, root + 1 + NumExt(g) + NumBitmapBlks(g));
  }

  lemma CreatedLinks(g: Geometry, rootNum: nat, r: Block, exts: seq<ExtBlock>, bms: seq<nat>)
    requires g.Valid() && Linked(g, r, exts, bms) && Placed(g, rootNum, exts, bms)
    ensures ExtsLinked(r.bitmapExt, exts) && AllPtrs(r, exts) == bms && |bms| == NumBitmapBlks(g)
  {
    LinkedListsAll(g, r, exts, bms);
  }

  /** The invariant of a volume that holds only its root directory. */
  lemma FreshInv(c: Config, v: Vol, x: Index, blk: Block)
    requires c.g.Valid() && c.g.reserved <= RootNum(c.g)
    requires RootNum(c.g) + NumExt(c.g) + NumBitmapBlks(c.g) < c.g.numBlocks
    requires c == FreshConfig(c.g, c.ffs, c.intl, c.bitmapPtrs, c.bitmapExt) && x == FreshIndex(c.root)
    requires blk.Root? && blk.rootTable == ZeroNums(c.g.blockLongs - 56)
    requires blk.bitmapPtrs == c.bitmapPtrs && blk.bitmapExt == c.bitmapExt
    requires v.nodes == map[c.root := DirNode(blk, None, [], NoBuckets(c.g.blockLongs - 56))]
    requires c.root in v.disk && v.disk[c.root] == blk
    requires v.free == Range(c.g.reserved, c.g.numBlocks) - SysBlocks(c.g, c.root)
    ensures Inv(c, v, x)
  {
    hide Live, Balanced, OwnerOk, FreeOk, NumExt, NumBitmapBlks, SysBlocks, ZeroNums, NoBuckets;
    FreshRoot(c, v, x, blk);
    FreshOwners(c, v, x, v.nodes[c.root]);
    FreshBalance(c, v, x);
  }

  lemma FreshOwners(c: Config, v: Vol, x: Index, n: Node)
    requires c.g.Valid() && c.g.reserved <= RootNum(c.g)
    requires RootNum(c.g) + NumExt(c.g) + NumBitmapBlks(c.g) < c.g.numBlocks
    requires c == FreshConfig(c.g, c.ffs, c.intl, c.bitmapPtrs, c.bitmapExt) && x == FreshIndex(c.root)
      && v.nodes == map[c.root := n]
    requires c.root in v.disk && v.free == Range(c.g.reserved, c.g.numBlocks) - SysBlocks(c.g, c.root)
    ensures OwnerOk(c, v, x) && FreeOk(c, v, x)
  {
    hide NumExt, NumBitmapBlks, RootNum, OwnerOk, FreeOk, Range;
    FreshRange(c, c.root);
    FreshOwner(c, v, x, n);
    FreshFree(c, v, x);
  }

  lemma FreshRange(c: Config, b: nat)
    requires c.g.Valid() && c.g.reserved <= RootNum(c.g)
    requires RootNum(c.g) + NumExt(c.g) + NumBitmapBlks(c.g) < c.g.numBlocks
    requires c == FreshConfig(c.g, c.ffs, c.intl, c.bitmapPtrs, c.bitmapExt)
    ensures InRange(c.g, c.root)
    ensures b in SysBlocks(c.g, c.root) <==> b == c.root || b in c.sys
    ensures b in Range(c.g.reserved, c.g.numBlocks) <==> InRange(c.g, b)
    ensures b in c.sys ==> b != c.root
  {
    hide NumExt, NumBitmapBlks, Range;
    InRangeSet(c.g.reserved, c.g.numBlocks, b);
    InRangeSet(c.root, c.root + 1 + NumExt(c.g) + NumBitmapBlks(c.g), b);
    InRangeSet(c.root, c.root + 1 + NumExt(c.g) + NumBitmapBlks(c.g), c.root);
  }

  lemma FreshOwner(c: Config, v: Vol, x: Index, n: Node)
    requires InRange(c.g, c.root) && c.root !in c.sys && c.root !in v.free && c.root in v.disk
    requires x == FreshIndex(c.root) && v.nodes == map[c.root := n]
    ensures OwnerOk(c, v, x)
  {
    assert OwnedBlock(c, v, x, c.root);
  }

  lemma FreshFree(c: Config, v: Vol, x: Index)
    requires c.g.Valid() && c.g.reserved <= RootNum(c.g)
    requires RootNum(c.g) + NumExt(c.g) + NumBitmapBlks(c.g) < c.g.numBlocks
    requires c == FreshConfig(c.g, c.ffs, c.intl, c.bitmapPtrs, c.bitmapExt) && x == FreshIndex(c.root)
    requires v.free == Range(c.g.reserved, c.g.numBlocks) - SysBlocks(c.g, c.root)
    ensures FreeOk(c, v, x)
  {
    hide InRange, NumExt, NumBitmapBlks, RootNum, FreshConfig, Range, SysBlocks;
    forall b | b in v.free ensures InRange(c.g, b) && b !in c.sys { FreshRange(c, b); }
    forall b | InRange(c.g, b) && b !in v.free && b !in c.sys ensures b in x.owner { FreshRange(c, b); }
  }

  lemma FreshRoot(c: Config, v: Vol, x: Index, blk: Block)
    requires c.Valid() && x == FreshIndex(c.root)
    requires blk.Root? && blk.rootTable == ZeroNums(c.g.blockLongs - 56)
    requires blk.bitmapPtrs == c.bitmapPtrs && blk.bitmapExt == c.bitmapExt
    requires v.nodes == map[c.root := DirNode(blk, None, [], NoBuckets(c.g.blockLongs - 56))]
    requires c.root in v.disk && v.disk[c.root] == blk
    ensures Live(c, v, x, c.root)
  {
    hide ZeroNums, NoBuckets;
    var n := v.nodes[c.root];
    assert Elems(n.Own(c.root)) == {c.root};
    assert forall h :: 0 <= h < |n.buckets| ==> BucketOk(c, v, c.root, h, n.buckets[h], n.Table()[h]);
  }

  lemma FreshBalance(c: Config, v: Vol, x: Index)
    requires c.g.Valid() && c.g.reserved <= RootNum(c.g)
    requires RootNum(c.g) + NumExt(c.g) + NumBitmapBlks(c.g) < c.g.numBlocks
    requires c == FreshConfig(c.g, c.ffs, c.intl, c.bitmapPtrs, c.bitmapExt) && x == FreshIndex(c.root)
    requires v.free == Range(c.g.reserved, c.g.numBlocks) - SysBlocks(c.g, c.root)
    ensures Balanced(c, v, x)
  {
    hide NumExt, NumBitmapBlks, Range;
    RangeMinus(c.g.reserved, c.root, c.root + 1 + NumExt(c.g) + NumBitmapBlks(c.g), c.g.numBlocks);
    CostOfOne(c, x.fs, []);
    assert x.fs - {[]} == map[];
  }

  ghost predicate AtPath(v: Vol, x: Index, p: Path) {
    p in x.ids && IsDirNode(v, x, x.ids[p]) && x.path[x.ids[p]] == p
  }

  /** A resolved directory is a directory node. */
  lemma ResolvedDir(c: Config, v: Vol, x: Index, s: seq<byte>, allowDir: bool)
    requires c.Valid() && Inv(c, v, x)
    ensures var t := Resolve(x.fs, s, c.intl, false, allowDir);
      t.Entry? ==> t.path in x.fs && x.fs[t.path] == Folder && AtPath(v, x, t.path)
  {
    hide Inv, FileNames.ValidPath, FileNames.RootAlias, FileNames.Split, FileNames.Fold;
    RootPath(c, v, x);
    var t := Resolve(x.fs, s, c.intl, false, allowDir);
    if t.Entry? {
      IdIsFs(c, v, x, t.path);
      IdIsNode(c, v, x, t.path);
    }
  }

  /** Some bound on the length of every path. */
  lemma SomeDepth(x: Index) returns (depth: nat)
    ensures DepthBound(x, depth)
  {
    depth := Deepest(x.ids.Keys);
  }

  lemma {:induction false} Deepest(ps: set<Path>) returns (depth: nat)
    ensures forall p :: p in ps ==> |p| <= depth
  {
    if ps == {} {
      depth := 0;
    } else {
      var p :| p in ps;
      var rest := Deepest(ps - {p});
      depth := if |p| > rest then |p| else rest;
    }
  }

  lemma OwnedNotSys(c: Config, v: Vol, x: Index, b: nat)
    requires c.Valid() && Inv(c, v, x) && b in x.owner
    ensures b !in c.sys
  {
    hide AllLive, IdsOk, FreeOk, Balanced, OwnsOnly;
    assert OwnedBlock(c, v, x, b);
  }

  /** No path is longer than `depth`. */
  ghost predicate DepthBound(x: Index, depth: nat) {
    forall p :: p in x.ids ==> |p| <= depth
  }

  lemma WithinDepth(x: Index, p: Path, depth: nat)
    requires DepthBound(x, depth) && p in x.ids
    ensures |p| <= depth
  {
  }

  lemma DepthKept(x: Index, x': Index, depth: nat)
    requires DepthBound(x, depth) && Kept(x, x')
    ensures DepthBound(x', depth)
  {
  }

  lemma KeptSelf(x: Index)
    ensures Kept(x, x)
  {
  }

  lemma KeptTrans(x0: Index, x1: Index, x2: Index)
    requires Kept(x0, x1) && Kept(x1, x2)
    ensures Kept(x0, x2)
  {
  }

  lemma IdPath(c: Config, v: Vol, x: Index, id: nat)
    requires c.Valid() && Inv(c, v, x) && id in v.nodes
    ensures id in x.path && x.path[id] in x.fs && x.path[id] in x.ids && x.ids[x.path[id]] == id
  {
    hide Inv;
    HeaderOwned(c, v, x, id);
  }

  lemma StillThere(c: Config, v: Vol, x0: Index, x: Index, p: Path)
    requires c.Valid() && Inv(c, v, x) && Kept(x0, x) && p in x.fs
    ensures p in x.ids && p in x0.ids && x.ids[p] == x0.ids[p] && x.ids[p] in v.nodes
    ensures x.ids[p] in x.path && x.path[x.ids[p]] == p
  {
    hide Inv;
    IdIsFs(c, v, x, p);
    IdIsNode(c, v, x, p);
  }

  lemma RootIff(c: Config, v: Vol, x: Index, id: nat)
    requires c.Valid() && Inv(c, v, x) && id in v.nodes && id in x.path
    ensures v.nodes[id].up.None? <==> id == c.root
    ensures x.path[id] == [] <==> id == c.root
  {
    hide Inv, IsParent, DirOk, FileOk, Owns;
    LiveNode(c, v, x, id);
  }

  /** A node's header block has an owner. */
  lemma HeaderOwner(c: Config, v: Vol, x: Index, id: nat)
    requires c.Valid() && Inv(c, v, x) && id in v.nodes
    ensures id in x.owner
  {
    hide Inv;
    HeaderOwned(c, v, x, id);
    OwnerOf(c, v, x, id, id);
  }

  /** The root block leads to the bitmap. */
  lemma RootPtrs(c: Config, v: Vol, x: Index)
    requires c.Valid() && Inv(c, v, x)
    ensures c.root in v.nodes && v.nodes[c.root].block.Root?
    ensures v.nodes[c.root].block.bitmapPtrs == c.bitmapPtrs && v.nodes[c.root].block.bitmapExt == c.bitmapExt
  {
    hide Inv, BucketOk, Owns;
    RootPath(c, v, x);
    LiveNode(c, v, x, c.root);
  }

  ghost function EntryPaths(v: Vol, x: Index, id: nat): (ps: seq<Path>)
    requires id in v.nodes && v.nodes[id].DirNode?
    ensures |ps| == |v.nodes[id].entries|
  {
    var es := v.nodes[id].entries;
    seq(|es|, i requires 0 <= i < |es| => if es[i] in x.path then x.path[es[i]] else [])
  }

  lemma EntryPathsOk(c: Config, v: Vol, x: Index, id: nat)
    requires c.Valid() && Inv(c, v, x) && IsDirNode(v, x, id)
    ensures var ps, es := EntryPaths(v, x, id), v.nodes[id].entries;
      && Siblings(x.fs, x.path[id], ps)
      && forall i :: 0 <= i < |es| ==> ps[i] in x.ids && x.ids[ps[i]] == es[i]
  {
    hide Inv, FileNames.Upper, BucketOk, Indexed;
    var ps, es := EntryPaths(v, x, id), v.nodes[id].entries;
    DirFacts(c, v, x, id);
    forall i | 0 <= i < |es|
      ensures ps[i] in x.ids && x.ids[ps[i]] == es[i] && ps[i] in x.fs
      ensures |ps[i]| == |x.path[id]| + 1 && x.path[id] <= ps[i]
    {
      EntryIsChild(c, v, x, id, es[i]);
      IdIsFs(c, v, x, ps[i]);
    }
  }

  /** When every entry is gone, everything below is. */
  lemma PrunedAll(c: Config, v: Vol, x: Index, id: nat, ps: seq<Path>)
    requires c.Valid() && Inv(c, v, x) && IsDirNode(v, x, id) && ps == EntryPaths(v, x, id)
    ensures Pruned(x.fs, ps, |ps|) == WithoutBelow(x.fs, x.path[id])
  {
    hide Inv, Pruned, EntryPaths;
    var p, es, r := x.path[id], v.nodes[id].entries, Pruned(x.fs, ps, |ps|);
    EntryPathsOk(c, v, x, id);
    forall q ensures q in r <==> q in x.fs && !(p <= q && p != q)
      ensures q in r ==> r[q] == x.fs[q]
    {
      PrunedMember(x.fs, ps, |ps|, q);
      IdIsFs(c, v, x, q);
      if q in x.fs && p <= q && p != q {
        EntryAbove(c, v, x, id, q);
        var k :| 0 <= k < |es| && es[k] == x.ids[q[..|p| + 1]];
        IdIsNode(c, v, x, ps[k]);
        IdIsNode(c, v, x, q[..|p| + 1]);
        assert ps[k] == q[..|p| + 1] <= q;
      }
    }
  }

  /** Entries that are left are the same nodes at the same paths. */
  ghost predicate Kept(x: Index, x': Index) {
    forall p :: p in x'.ids ==> p in x.ids && x'.ids[p] == x.ids[p]
  }

  lemma NextAt(names: seq<nat>, pos: nat, next: nat)
    requires pos < |names| && next == if pos == |names| - 1 then 0 else names[pos + 1]
    ensures next == At(names, pos + 1)
  {
  }

  /** `can_delete`: nothing lies below. */
  lemma LeafIff(c: Config, v: Vol, x: Index, id: nat)
    requires c.Valid() && Inv(c, v, x) && id in v.nodes && id in x.path
    ensures Below(x.fs, x.path[id]) != map[] <==> v.nodes[id].DirNode? && v.nodes[id].entries != []
  {
    hide Inv, FileNames.Upper;
    var p := x.path[id];
    if v.nodes[id].DirNode? && v.nodes[id].entries != [] {
      var e := v.nodes[id].entries[0];
      EntryIsChild(c, v, x, id, e);
      IdIsFs(c, v, x, x.path[e]);
      assert x.path[e] in Below(x.fs, p);
    }
    if Below(x.fs, p) != map[] {
      var q :| q in Below(x.fs, p);
      IdIsFs(c, v, x, q);
      EntryAbove(c, v, x, id, q);
    }
  }

  lemma PrevIsSibling(c: Config, v: Vol, x: Index, d: nat, h: nat, pos: nat, id: nat)
    requires c.Valid() && Inv(c, v, x) && id in v.nodes && id != c.root && v.nodes[id].up == Some(d)
    requires v.nodes[id].DirNode? ==> v.nodes[id].entries == []
    requires IsDirNode(v, x, d) && h == FileNames.Hash(v.nodes[id].Name(), c.intl, c.HashSize())
      && |v.nodes[d].buckets| == c.HashSize()
    requires pos < |v.nodes[d].buckets[h]| && v.nodes[d].buckets[h][pos] == id
    ensures VolumeRemoval.Removable(c, v, VolumeRemoval.Removal(d, h, pos, id))
  {
    hide Inv, FileNames.Hash, FileNames.Upper, Live;
    DirFacts(c, v, x, d);
    var bk := v.nodes[d].buckets[h];
    assert BucketOk(c, v, d, h, bk, v.nodes[d].Table()[h]);
    ChildPath(c, v, x, d, id);
    if pos > 0 {
      assert InChain(c, v, d, h, bk, pos - 1);
      ChildPath(c, v, x, d, bk[pos - 1]);
      HeaderKind(c, v, x, bk[pos - 1]);
    }
  }

  lemma HeaderKind(c: Config, v: Vol, x: Index, id: nat)
    requires c.Valid() && Inv(c, v, x) && id in v.nodes && id != c.root
    ensures v.nodes[id].block.UserDir? || v.nodes[id].block.FileHeader?
  {
    hide Inv, IsParent, BucketOk, BodyOnDisk, Owns;
    LiveNode(c, v, x, id);
  }

  lemma OwnInRange(c: Config, v: Vol, x: Index, id: nat)
    requires c.Valid() && Inv(c, v, x) && id in v.nodes
    ensures id in x.path && id in x.owned && x.owned[id] == Elems(v.nodes[id].Own(id))
    ensures forall b :: b in v.nodes[id].Own(id) ==> InRange(c.g, b)
    ensures v.nodes[id].Own(id)[0] !in v.free
  {
    hide Inv, InRange, Distinct;
    VolumeRemoval.NodeOwns(c, v, x, id);
    OwnerOf(c, v, x, id, v.nodes[id].Own(id)[0]);
    forall b | b in v.nodes[id].Own(id) ensures InRange(c.g, b) {
      OwnerOf(c, v, x, id, b);
    }
  }

  lemma RemovedDir(c: Config, v: Vol, r: VolumeRemoval.Removal)
    requires c.Valid() && VolumeRemoval.Removable(c, v, r)
    ensures r.dir in VolumeRemoval.Removed(c, v, r).nodes && VolumeRemoval.Removed(c, v, r).nodes[r.dir].DirNode?
  {
    hide FileNames.Hash, At;
  }

  lemma DirStays(c: Config, v: Vol, x: Index, d: nat)
    requires c.Valid() && Inv(c, v, x) && d in v.nodes
    ensures d in x.path
  {
    hide *;
    PathKept(c, v, x, d);
  }

  lemma CostOfFile(c: Config, data: seq<byte>)
    requires c.g.Valid()
    ensures Cost(c, Contents(data)) == NumBlocks(c.g, c.ffs, |data|) > 0
  {
  }

  /** The blocks and node of a new file are what `InsertInv` asks for. */
  lemma NewFileNode(c: Config, v: Vol, x: Index, blks: seq<nat>, n: Creation, name: seq<byte>, chain: nat, meta: Meta)
    requires c.Valid() && Inv(c, v, x) && n.dir in v.nodes && n.dir in x.path && IsDir(c, v.nodes[n.dir])
    requires n.node.FileNode? && n.entry.Contents? && n.node.up == Some(n.dir) && n.node.cache == Some(n.entry.data)
    requires var ext, dat, data := n.node.ext, n.node.dat, n.entry.data;
      && Distinct(blks) && Elems(blks) <= v.free && FileBlocks(n.id, ext, dat) == blks && n.own == Elems(blks)
      && CountsOk(c.g, c.ffs, ext, dat, |data|)
      && n.node.block == HeaderRec(c.g, n.id, n.dir, name, chain, |data|, ext, dat, meta)
      && n.disk == WroteFile(c.g, c.ffs, v.disk, n.node.block, n.id, ext, dat, data)
    requires n.bucket == FileNames.Hash(name, c.intl, c.HashSize()) && chain == At(v.nodes[n.dir].buckets[n.bucket], 0)
    requires n.path == Child(x.path[n.dir], name, c.intl) && n.path !in x.ids
    ensures Vacant(c, v, x, n) && NewNode(c, n) && n.id !in v.nodes
  {
    hide Inv, FileNames.Hash, FileNames.Upper, At, Distinct, WroteFile, BodyOnDisk, CountsOk, IsDir;
    var ext, dat, data := n.node.ext, n.node.dat, n.entry.data;
    WroteFileOk(c.g, c.ffs, v.disk, n.node.block, n.id, ext, dat, data);
    assert n.id == blks[0];
    FreeUnowned(c, v, x, n.id);
    forall i | 0 <= i < |ext| ensures ext[i] != 0 {
      assert ext[i] == blks[1 + i];
      FreeUnowned(c, v, x, ext[i]);
    }
    forall b | b in v.disk && b !in v.free ensures b in n.disk && n.disk[b] == v.disk[b] {
      WroteFileElse(c.g, c.ffs, v.disk, n.node.block, n.id, ext, dat, data, b);
    }
    forall b | b in n.own ensures b in n.disk {
      WrittenIn(c, v.disk, n, b);
    }
  }

  lemma WrittenIn(c: Config, disk: map<nat, Block>, n: Creation, b: nat)
    requires c.Valid() && n.node.FileNode? && n.entry.Contents?
    requires n.id in n.disk && BodyOnDisk(c.g, c.ffs, n.disk, n.id, n.node.ext, n.node.dat, n.entry.data)
    requires b in FileBlocks(n.id, n.node.ext, n.node.dat)
    ensures b in n.disk
  {
    hide ListRec, DataRec, CountsOk;
    var ext, dat := n.node.ext, n.node.dat;
    if b in ext {
      var i :| 0 <= i < |ext| && ext[i] == b;
      assert Landed(n.disk, ext[i], ListRec(c.g, n.id, ext, dat, i));
    } else if b in dat {
      var i :| 0 <= i < |dat| && dat[i] == b;
      assert Landed(n.disk, dat[i], DataRec(c.g, c.ffs, n.id, dat, n.entry.data, i));
    }
  }

  lemma PathKept(c: Config, v: Vol, x: Index, id: nat)
    requires c.Valid() && Inv(c, v, x) && id in v.nodes
    ensures id in x.path && x.path[id] in x.fs && (v.nodes[id].FileNode? <==> x.fs[x.path[id]].Contents?)
  {
    hide Inv, Hangs, BucketOk, Owns, HoldsFile, Mirrored;
    LiveNode(c, v, x, id);
  }

  lemma CacheShape(x: Index, id: nat, n: Node, m: Node)
    requires n.FileNode? && m.FileNode? && m == FileNode(n.block, n.up, n.ext, n.dat, m.cache) && id in x.path
      && x.path[id] in x.fs
    requires m.cache.Some? ==> x.fs[x.path[id]] == Contents(m.cache.value)
    ensures SameShape(n, m) && m.Link() == n.Link() && CacheOk(x, id, m)
  {
  }

  // ----- what the device shows -----

  /** The block of every entry names itself and the directory that holds the entry, and the entry's path is that
      of this directory with the folded name from the block behind it. */
  lemma HeaderOnDisk(c: Config, v: Vol, x: Index, id: nat)
    requires c.Valid() && Inv(c, v, x) && id in v.nodes && id != c.root
    ensures id in v.disk && (v.disk[id].UserDir? || v.disk[id].FileHeader?)
    ensures var b := v.disk[id];
      && b.ownKey == id && b.parent in v.disk && (b.parent == c.root <==> v.disk[b.parent].Root?)
      && b.parent in x.path && id in x.path && x.path[b.parent] in x.fs && x.fs[x.path[b.parent]] == Folder
      && x.path[id] == x.path[b.parent] + [FileNames.Upper(b.name, c.intl)]
      && x.path[id] in x.fs && (b.UserDir? <==> x.fs[x.path[id]] == Folder)
  {
    hide Inv, FileNames.Hash, FileNames.Upper, BucketOk, BodyOnDisk, Owns;
    LiveNode(c, v, x, id);
    HeaderOwned(c, v, x, id);
    HeaderKind(c, v, x, id);
    var d := v.nodes[id].up.value;
    LiveNode(c, v, x, d);
    HeaderOwned(c, v, x, d);
  }

  /** The hash table of a directory leads to its entries: a slot has the first entry of its bucket or 0, and the
      block of every entry in the bucket, whose name has this hash, has the next one or 0. */
  lemma ChainOnDisk(c: Config, v: Vol, x: Index, d: nat, h: nat)
    requires c.Valid() && Inv(c, v, x) && IsDirNode(v, x, d) && h < c.HashSize()
    ensures d in v.disk && (v.disk[d].Root? || v.disk[d].UserDir?)
    ensures var table := if v.disk[d].Root? then v.disk[d].rootTable else v.disk[d].dirTable;
      |table| == |v.nodes[d].buckets| == c.g.blockLongs - 56
      && table[h] == if v.nodes[d].buckets[h] == [] then 0 else v.nodes[d].buckets[h][0]
    ensures var bucket := v.nodes[d].buckets[h];
      forall i :: 0 <= i < |bucket| ==> EntryLinks(c, v, h, bucket, i)
  {
    hide Inv, FileNames.Hash, FileNames.Upper, Owns, Indexed;
    DirFacts(c, v, x, d);
    HeaderOwned(c, v, x, d);
    var n := v.nodes[d];
    assert BucketOk(c, v, d, h, n.buckets[h], n.Table()[h]);
    forall i | 0 <= i < |n.buckets[h]| ensures EntryLinks(c, v, h, n.buckets[h], i) {
      assert InChain(c, v, d, h, n.buckets[h], i);
      HeaderOwned(c, v, x, n.buckets[h][i]);
      HeaderKind(c, v, x, n.buckets[h][i]);
    }
  }

  ghost predicate EntryLinks(c: Config, v: Vol, h: nat, bucket: seq<nat>, i: nat)
    requires c.Valid() && i < |bucket|
  {
    && bucket[i] in v.disk && (v.disk[bucket[i]].UserDir? || v.disk[bucket[i]].FileHeader?)
    && v.disk[bucket[i]].hashChain == (if i + 1 < |bucket| then bucket[i + 1] else 0)
    && FileNames.Hash(v.disk[bucket[i]].name, c.intl, c.HashSize()) == h
  }

  /** The header and the body of every file are on the device, laid out as `FileLayout.HeaderExact`, `ListExact`
      and `DataExact` say. */
  lemma FileOnDisk(c: Config, v: Vol, x: Index, id: nat)
    requires c.Valid() && Inv(c, v, x) && id in v.nodes && v.nodes[id].FileNode?
    ensures id in x.path && x.path[id] in x.fs && x.fs[x.path[id]].Contents? && id in v.disk
    ensures var n, data := v.nodes[id], x.fs[x.path[id]].data;
      && HeaderOk(c.g, v.disk[id], id, n.ext, n.dat, |data|) && v.disk[id].byteSize == |data|
      && BodyOnDisk(c.g, c.ffs, v.disk, id, n.ext, n.dat, data)
      && Distinct([id] + n.ext + n.dat) && x.owned[id] == Elems([id] + n.ext + n.dat)
  {
    hide Inv, Hangs, BodyOnDisk, Distinct;
    LiveNode(c, v, x, id);
  }

  /** What is read from the device or the cache is what the file holds. */
  lemma FileReads(c: Config, v: Vol, x: Index, id: nat)
    requires c.Valid() && Inv(c, v, x) && id in v.nodes && v.nodes[id].FileNode? && id in x.path && x.path[id] in x.fs
    ensures var n := v.nodes[id];
      && x.fs[x.path[id]].Contents? && n.block.FileHeader?
      && ReadBack(c.ffs, v.disk, n.dat, n.block.byteSize) == Ok(x.fs[x.path[id]].data)
      && (n.cache.Some? ==> n.cache.value == x.fs[x.path[id]].data)
  {
    hide Inv, Hangs, Owns, Mirrored, Indexed, BodyOnDisk, ReadBack;
    LiveNode(c, v, x, id);
    var n := v.nodes[id];
    ReadBackIsData(c.g, c.ffs, v.disk, id, n.ext, n.dat, x.fs[x.path[id]].data);
  }

  lemma RoomIsFree(c: Config, v: Vol, x: Index)
    requires c.Valid() && Inv(c, v, x)
    ensures Room(c, x.fs) == |v.free|
  {
    hide AllLive, OwnerOk, FreeOk, IdsOk;
  }

  /** The block and node of a new directory are what `InsertInv` asks for. */
  lemma NewDirNode(c: Config, v: Vol, x: Index, blks: seq<nat>, n: Creation, ud: Block)
    requires c.Valid() && n.dir in v.nodes && n.dir in x.path && IsDir(c, v.nodes[n.dir])
    requires Distinct(blks) && |blks| == 1 && Elems(blks) <= v.free && n.id == blks[0] && n.own == Elems(blks)
    requires n.disk == v.disk[n.id := ud] && n.entry == Folder
    requires n.node == DirNode(ud, Some(n.dir), [], NoBuckets(c.g.blockLongs - 56))
    requires ud.UserDir? && ud.ownKey == n.id && ud.parent == n.dir && ud.dirTable == ZeroNums(c.g.blockLongs - 56)
    requires n.bucket == FileNames.Hash(ud.name, c.intl, c.HashSize())
      && ud.hashChain == At(v.nodes[n.dir].buckets[n.bucket], 0)
    requires n.path == Child(x.path[n.dir], ud.name, c.intl) && n.path !in x.ids
    ensures Vacant(c, v, x, n) && NewNode(c, n)
  {
    hide FileNames.Hash, FileNames.Upper, At, Distinct, ZeroNums, NoBuckets;
    assert blks == [n.id];
  }

  /** The first step of a path. */
  lemma FoldFirst(pc: seq<seq<byte>>, dir: Path, intl: bool)
    requires |pc| > 0
    ensures var p, q := dir + FileNames.Fold(pc, intl), Child(dir, pc[0], intl);
      |p| == |dir| + |pc| && q == p[..|q|] && p == q + FileNames.Fold(pc[1..], intl) && (|pc| == 1 ==> p == q)
  {
  }
}
