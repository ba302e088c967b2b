/** `ADFSVolume`, `ADFSDir` and `ADFSNode` as one object: the table of node objects, the bitmap and the
    device, changed in place, against the map from paths to contents. */
module Volumes {
  import opened Bytes
  import opened Seqs
  import opened Device
  import opened FileNames
  import FileLayout
  import BitmapWords
  import opened BitmapStore
  import Bitmaps
  import opened VolumeState
  import opened VolumeSteps
  import VolumeRemoval
  import opened VolumeLookup
  import opened VolumeSpec
  import opened VolumeFacts
  import VolumeLoad

  /** `is_valid`: no component is longer than 30 characters. */
  method IsValid(s: seq<byte>) returns (r: bool)
    ensures r == ValidPath(s)
  {
    var parts := Split(s);
    for i := 0 to |parts|
      invariant forall j :: 0 <= j < i ==> |parts[j]| <= MAX_NAME
    {
      if |parts[i]| > MAX_NAME { return false; }
    }
    r := true;
  }

  /** The bitmap part of `create`: set up, linked to the root block and written.  A name of 256 characters or
      more fails at the root block, the last one written; one above 30 is cut there. */
  method FormatBitmap(bitmap: Bitmaps.Bitmap, blk: Block) returns (ok: bool, r: Block)
    requires bitmap.Valid() && bitmap.extBlks == [] && bitmap.bitmapBlks == [] && bitmap.dev.Sound()
    requires blk.Root? && blk.bitmapPtrs == Zeros(ROOT_PTRS) && blk.bitmapExt == 0
    requires NumbersFit(blk, bitmap.dev.g.blockLongs)
    requires bitmap.rootNum + NumExt(bitmap.dev.g) + NumBitmapBlks(bitmap.dev.g) < bitmap.dev.g.numBlocks
    modifies bitmap, bitmap.dev
    ensures bitmap.Valid() && fresh(bitmap.data) && bitmap.Drift() == 0
    ensures bitmap.data.Length == Times(|bitmap.bitmapBlks|, BlkBytes(bitmap.dev.g))
    ensures Apart(bitmap.rootNum, bitmap.extBlks, bitmap.bitmapBlks) && ExtsFit(bitmap.dev.g, bitmap.extBlks)
    ensures forall b :: InStore(b, bitmap.rootNum, bitmap.extBlks, bitmap.bitmapBlks) ==>
      b in SysBlocks(bitmap.dev.g, bitmap.rootNum)
    ensures bitmap.Free()
      == Range(bitmap.dev.g.reserved, bitmap.dev.g.numBlocks) - SysBlocks(bitmap.dev.g, bitmap.rootNum)
    ensures r.Root? && r == blk.(bitmapPtrs := r.bitmapPtrs, bitmapExt := r.bitmapExt)
    ensures ExtsLinked(r.bitmapExt, bitmap.extBlks) && AllPtrs(r, bitmap.extBlks) == bitmap.bitmapBlks
    ensures |bitmap.bitmapBlks| == NumBitmapBlks(bitmap.dev.g)
    ensures ExtsOnDisk(bitmap.dev.blks, bitmap.extBlks) && bitmap.Stores(bitmap.data[..])
    ensures bitmap.dev.Sound() && (ok <==> |blk.rootName| < 256) && NumbersFit(r, bitmap.dev.g.blockLongs)
    ensures ok ==> bitmap.rootNum in bitmap.dev.blks && bitmap.dev.blks[bitmap.rootNum] == Trimmed(r)
  {
    hide NumExt, NumBitmapBlks, SysBlocks, Range, Times, Placed, Linked, Apart, InStore, BlkBytes, DataBytes;
    hide ExtsLinked, ExtPtrs, ExtsOnDisk, Used, ExtsFit, DiskSound, Trimmed;
    r := bitmap.Create(blk);
    CreatedApart(bitmap.dev.g, bitmap.rootNum, bitmap.extBlks, bitmap.bitmapBlks);
    CreatedLinks(bitmap.dev.g, bitmap.rootNum, r, bitmap.extBlks, bitmap.bitmapBlks);
    LinkedFits(bitmap.dev.g, bitmap.rootNum, r, bitmap.extBlks, bitmap.bitmapBlks);
    ok := bitmap.Write(r);
  }

  class Volume {
    ghost var c: Config
    const dev: BlockDevice
    const bitmap: Bitmaps.Bitmap
    const ffs: bool
    const intl: bool
    const root: nat
    var nodes: map<nat, Node>
    // `valid` of the root block object: set by reading it, not by `create`
    var rootValid: bool
    ghost var x: Index
    // what the used counter is off by, from `create` or `open` on
    ghost var drift: int

    ghost predicate Wired()
      reads this`c
    {
      && c.Valid() && c.g == dev.g && c.ffs == ffs && c.intl == intl && c.root == root
      && bitmap.dev == dev && bitmap.rootNum == root
    }

    /** The bitmap's own blocks are system blocks, and the root block leads a reader to them. */
    ghost predicate StoreOk()
      requires c.g.Valid()
      reads this`c, bitmap`extBlks, bitmap`bitmapBlks
    {
      && Apart(root, bitmap.extBlks, bitmap.bitmapBlks)
      && (forall b :: InStore(b, root, bitmap.extBlks, bitmap.bitmapBlks) ==> b == root || b in c.sys)
      && ExtsLinked(c.bitmapExt, bitmap.extBlks)
      && Used(c.bitmapPtrs) + ExtPtrs(bitmap.extBlks, |bitmap.extBlks|) == bitmap.bitmapBlks
      && |bitmap.bitmapBlks| == NumBitmapBlks(c.g) && ExtsFit(c.g, bitmap.extBlks)
    }

    /** The device holds the bitmap as it is in memory. */
    ghost predicate Stored()
      reads bitmap`extBlks, bitmap`bitmapBlks, bitmap`data, bitmap.data, bitmap.dev, dev
    {
      ExtsOnDisk(dev.blks, bitmap.extBlks) && bitmap.Stores(bitmap.data[..])
    }

    ghost predicate BitmapOk()
      requires Wired()
      reads this`c, this`drift, bitmap, bitmap.data
    {
      && bitmap.Valid() && bitmap.data.Length == Times(|bitmap.bitmapBlks|, BlkBytes(c.g))
      && bitmap.Drift() == drift
    }

    ghost function State(): Vol
      reads this`nodes, dev, bitmap`view
    {
      Vol(dev.blks, nodes, bitmap.Free())
    }

    ghost predicate Valid()
      reads this, dev, bitmap, bitmap.data, bitmap.dev
    {
      && Wired() && StoreOk() && BitmapOk() && Inv(c, State(), x) && dev.Sound()
      && (!bitmap.dirty ==> Stored())
    }

    // ----- a fresh volume -----

    constructor (dev: BlockDevice, ffs: bool, intl: bool)
      requires dev.g.Valid() && dev.g.reserved <= RootNum(dev.g)
      requires RootNum(dev.g) + NumExt(dev.g) + NumBitmapBlks(dev.g) < dev.g.numBlocks
      ensures root == dev.g.numBlocks / 2
      ensures this.dev == dev && c == FreshConfig(dev.g, ffs, intl, [], 0) && x == FreshIndex(RootNum(dev.g))
      ensures Wired() && fresh(bitmap) && fresh(bitmap.data)
      ensures bitmap.Valid() && bitmap.extBlks == [] && bitmap.bitmapBlks == [] && nodes == map[]
    {
      this.dev, this.ffs, this.intl, this.root := dev, ffs, intl, RootNum(dev.g);
      bitmap := new Bitmaps.Bitmap(dev, RootNum(dev.g));
      c := FreshConfig(dev.g, ffs, intl, [], 0);
      nodes, rootValid := map[], false;
      x := FreshIndex(RootNum(dev.g));
      drift := 0;
    }

    /** `create` on a device with room for the bitmap after the root block.  The volume is good exactly when
        its name fits the root block: `is_valid` lets longer names with slashes pass. */
    method Create(name: seq<byte>, modTime: Time, diskTime: Time, createTime: Time, fsType: long)
      returns (err: Option<FsError>)
      requires Wired() && dev.g.reserved <= RootNum(dev.g) && dev.Sound() && nodes == map[]
      requires RootNum(dev.g) + NumExt(dev.g) + NumBitmapBlks(dev.g) < dev.g.numBlocks
      requires c == FreshConfig(dev.g, ffs, intl, [], 0) && x == FreshIndex(root)
      requires bitmap.Valid() && bitmap.extBlks == [] && bitmap.bitmapBlks == []
      modifies this, dev, bitmap
      ensures err == if !ValidPath(name) then Some(InvalidName) else if |name| >= 256 then Some(Crash) else None
      ensures Valid() <==> err.None? && |name| <= NAME_FIELD
      ensures Valid() ==> fresh(bitmap.data) && x.fs == map[[] := Folder] && drift == 0 && !rootValid
      ensures Valid() ==> bitmap.Free() == Range(dev.g.reserved, dev.g.numBlocks) - SysBlocks(dev.g, root)
      ensures Valid() ==>
        c.capacity == dev.g.numBlocks - dev.g.reserved - NumExt(dev.g) - NumBitmapBlks(dev.g)
      ensures err.None? ==> root in dev.blks && dev.blks[root].Root?
      ensures err.None? ==> var b := dev.blks[root];
        && b.rootName == (if |name| <= 30 then name else name[..30])
        && b.meta == Meta(0, [], modTime.days, modTime.mins, modTime.ticks)
        && b.diskTime == diskTime && b.createTime == createTime && b.fsType == fsType
      ensures err.None? ==> |dev.blks[root].rootTable| == dev.g.blockLongs - 56
      ensures err.None? ==> forall h :: 0 <= h < dev.g.blockLongs - 56 ==> dev.blks[root].rootTable[h] == 0
    {
      hide Inv, NumExt, NumBitmapBlks, SysBlocks, Range, Times, Apart, InStore, ZeroNums, NoBuckets, BlkBytes;
      hide DataBytes, BitmapWords.FreeSet, Bitmaps.Bitmap.Valid, ValidPath, ExtsLinked, ExtPtrs, ExtsOnDisk, Used;
      hide ExtsFit, DiskSound, Trimmed, NumbersFit, Bitmaps.Bitmap.Drift, AreBitmaps, Collected;
      NoRoot(c, State(), x);
      var ok := IsValid(name);
      if !ok { return Some(InvalidName); }
      var blk := Root(name, ZeroNums(dev.g.blockLongs - 56), Zeros(ROOT_PTRS), 0,
                      Meta(0, [], modTime.days, modTime.mins, modTime.ticks), diskTime, createTime, fsType);
      NewRootFits(blk, dev.g.blockLongs);
      ok, blk := FormatBitmap(bitmap, blk);
      if !ok {
        NoRoot(c, State(), x);
        return Some(Crash);
      }
      TrimmedIff(blk, dev.g.blockLongs);
      TrimmedExact(blk);
      Mount(blk);
      err := None;
    }

    /** The rest of `create`: the root directory object. */
    method Mount(blk: Block)
      requires Wired() && dev.g.reserved <= RootNum(dev.g) && dev.Sound() && blk.Root?
      requires RootNum(dev.g) + NumExt(dev.g) + NumBitmapBlks(dev.g) < dev.g.numBlocks
      requires c == FreshConfig(dev.g, ffs, intl, [], 0) && x == FreshIndex(root)
      requires bitmap.Valid() && bitmap.Drift() == 0 && Stored() && blk.rootTable == ZeroNums(dev.g.blockLongs - 56)
      requires bitmap.data.Length == Times(|bitmap.bitmapBlks|, BlkBytes(dev.g))
      requires Apart(root, bitmap.extBlks, bitmap.bitmapBlks) && ExtsFit(dev.g, bitmap.extBlks)
      requires forall b :: InStore(b, root, bitmap.extBlks, bitmap.bitmapBlks) ==> b in SysBlocks(dev.g, root)
      requires bitmap.Free() == Range(dev.g.reserved, dev.g.numBlocks) - SysBlocks(dev.g, root)
      requires ExtsLinked(blk.bitmapExt, bitmap.extBlks) && AllPtrs(blk, bitmap.extBlks) == bitmap.bitmapBlks
      requires |bitmap.bitmapBlks| == NumBitmapBlks(dev.g) && root in dev.blks
      requires dev.blks[root] == blk <==> |blk.rootName| <= NAME_FIELD
      modifies this
      ensures (Valid() <==> |blk.rootName| <= NAME_FIELD) && x.fs == map[[] := Folder] && drift == 0 && !rootValid
      ensures c.capacity == dev.g.numBlocks - dev.g.reserved - NumExt(dev.g) - NumBitmapBlks(dev.g)
    {
      hide Inv, NumExt, NumBitmapBlks, Range, Times, Apart, InStore, ZeroNums, NoBuckets, BlkBytes, DataBytes;
      hide BitmapWords.FreeSet, Bitmaps.Bitmap.Valid, ExtsLinked, ExtPtrs, ExtsOnDisk, Used, ExtsFit, DiskSound;
      hide SysBlocks, Stored, Bitmaps.Bitmap.Drift;
      c := FreshConfig(dev.g, ffs, intl, blk.bitmapPtrs, blk.bitmapExt);
      nodes := map[root := DirNode(blk, None, [], NoBuckets(dev.g.blockLongs - 56))];
      rootValid, drift := false, 0;
      if |blk.rootName| <= NAME_FIELD {
        FreshInv(c, State(), x, blk);
      } else {
        UnmirroredBreaks(c, State(), x, root);
      }
    }

    // ----- lookup -----

    /** `has_name`: only the bucket of the name's hash is searched. */
    method HasName(d: nat, name: seq<byte>) returns (r: bool)
      requires Valid() && IsDirNode(State(), x, d)
      ensures r <==> Child(x.path[d], name, intl) in x.fs
    {
      hide Inv, Hash, Upper, DirOk, DiskSound, Stored, Bitmaps.Bitmap.Valid, SysBlocks, ExtsFit, Apart;
      ghost var p := Child(x.path[d], name, intl);
      DirFacts(c, State(), x, d);
      IdIsFs(c, State(), x, p);
      var size := dev.g.blockLongs - 56;
      var h := HashName(name, intl, size);
      var up := GetUpperAmiStr(name, intl);
      var bucket := nodes[d].buckets[h];
      ghost var had := p in x.ids;
      if had { ChildIsEntry(c, State(), x, d, name); }
      r := false;
      for i := 0 to |bucket|
        invariant had ==> forall j :: 0 <= j < i ==> bucket[j] != x.ids[p]
      {
        BucketIsChild(c, State(), x, d, h, i);
        var other := GetUpperAmiStr(nodes[bucket[i]].Name(), intl);
        if other == up { return true; }
      }
    }

    /** The linear scan of `get_path`. */
    method FindEntry(d: nat, name: seq<byte>) returns (r: Option<nat>)
      requires Valid() && IsDirNode(State(), x, d)
      ensures var p := Child(x.path[d], name, intl); r == if p in x.ids then Some(x.ids[p]) else None
    {
      hide Inv, Hash, Upper, DirOk, DiskSound, Stored, Bitmaps.Bitmap.Valid, SysBlocks, ExtsFit, Apart;
      ghost var p := Child(x.path[d], name, intl);
      var up := GetUpperAmiStr(name, intl);
      var entries := nodes[d].entries;
      if p in x.ids { ChildIsEntry(c, State(), x, d, name); }
      for i := 0 to |entries|
        invariant p in x.ids ==> forall j :: 0 <= j < i ==> entries[j] != x.ids[p]
      {
        EntryIsChild(c, State(), x, d, entries[i]);
        var other := GetUpperAmiStr(nodes[entries[i]].Name(), intl);
        if other == up { return Some(entries[i]); }
      }
      r := None;
    }

    /** What `get_path` is to find below a directory. */
    ghost function Found(p: Path, allowFile: bool, allowDir: bool): Option<nat>
      reads this`x
    {
      if p in x.fs && p in x.ids && KindOk(x.fs[p], allowFile, allowDir) then Some(x.ids[p]) else None
    }

    /** `get_path`: one linear scan per component finds exactly the entry at the folded path. */
    method GetPath(d: nat, pc: seq<seq<byte>>, allowFile: bool, allowDir: bool) returns (r: Option<nat>)
      requires Valid() && IsDirNode(State(), x, d) && |pc| > 0
      ensures r == Found(x.path[d] + Fold(pc, intl), allowFile, allowDir)
      decreases |pc|
    {
      hide Inv, Hash, Upper, Fold, DiskSound;
      ghost var p, q := x.path[d] + Fold(pc, intl), Child(x.path[d], pc[0], intl);
      FoldFirst(pc, x.path[d], intl);
      var e := FindEntry(d, pc[0]);
      if e.None? {
        if p in x.ids && |pc| > 1 { PrefixFolder(c, State(), x, p, |q|); }
        return None;
      }
      IdIsNode(c, State(), x, q);
      if |pc| > 1 {
        if nodes[e.value].DirNode? {
          r := GetPath(e.value, pc[1..], allowFile, allowDir);
        } else {
          if p in x.ids { PrefixFolder(c, State(), x, p, |q|); }
          r := None;
        }
      } else if nodes[e.value].DirNode? {
        r := if allowDir then e else None;
      } else {
        r := if allowFile then e else None;
      }
    }

    /** `get_path_name`: None stands for INVALID_FILE_NAME, Some(None) for no such node. */
    method GetPathName(s: seq<byte>, allowFile: bool, allowDir: bool) returns (r: Option<Option<nat>>)
      requires Valid()
      ensures r.None? <==> Resolve(x.fs, s, intl, allowFile, allowDir).Bad?
      ensures r.Some? && r.value.None? <==> Resolve(x.fs, s, intl, allowFile, allowDir).Nothing?
      ensures r.Some? && r.value.Some? ==> var t := Resolve(x.fs, s, intl, allowFile, allowDir);
        t.Entry? && t.path in x.ids && r.value.value == x.ids[t.path]
    {
      hide Inv, Fold, Split, ValidPath, RootAlias, DiskSound;
      var ok := IsValid(s);
      if !ok { return None; }
      RootPath(c, State(), x);
      if RootAlias(s) { return Some(Some(root)); }
      var node := GetPath(root, Split(s), allowFile, allowDir);
      IdIsFs(c, State(), x, Fold(Split(s), intl));
      assert [] + Fold(Split(s), intl) == Fold(Split(s), intl);
      r := Some(node);
    }

    // ----- time stamps -----

    ghost predicate DirBlockOk(d: nat)
      reads this`nodes
    {
      && d in nodes && nodes[d].DirNode? && (nodes[d].block.Root? || nodes[d].block.UserDir?)
      && Storable(nodes[d].block, dev.g.blockLongs) && KeyOk(d, nodes[d].block)
    }

    /** `update_dir_mod_time` on a directory. */
    method UpdateDirModTime(d: nat, now: Time)
      requires DirBlockOk(d) && dev.Sound()
      modifies this`nodes, dev
      ensures var n := old(nodes[d]);
        var m := n.WithBlock(StampBlock(n.block, now));
        nodes == old(nodes)[d := m] && dev.blks == old(dev.blks)[d := m.block]
      ensures dev.Sound() && DirBlockOk(d) && (nodes[d].block.Root? <==> old(nodes[d].block.Root?))
      ensures nodes[d].block.meta == old(nodes[d].block.meta).(days := now.days, mins := now.mins, ticks := now.ticks)
      ensures nodes[d].block.Root? ==> var o := old(nodes[d].block);
        nodes[d].block == Root(o.rootName, o.rootTable, o.bitmapPtrs, o.bitmapExt, nodes[d].block.meta,
                               o.diskTime, o.createTime, o.fsType)
      ensures nodes[d].block.UserDir? ==> var o := old(nodes[d].block);
        nodes[d].block == UserDir(o.ownKey, o.parent, o.name, o.hashChain, o.dirTable, nodes[d].block.meta)
    {
      hide Storable, KeyOk;
      StampFits(nodes[d].block, now, dev.g.blockLongs, d);
      var m := nodes[d].WithBlock(StampBlock(nodes[d].block, now));
      dev.WriteBlock(d, m.block);
      nodes := nodes[d := m];
    }

    /** `update_disk_time`: nothing happens while the root block object is not marked valid, as after
        `create`. */
    method UpdateDiskTime(now: Time)
      requires DirBlockOk(root) && nodes[root].block.Root? && dev.Sound()
      modifies this`nodes, dev
      ensures dev.Sound() && (!rootValid ==> nodes == old(nodes) && dev.blks == old(dev.blks))
      ensures rootValid ==> var n := old(nodes[root]);
        var m := n.WithBlock(StampDisk(n.block, now));
        nodes == old(nodes)[root := m] && dev.blks == old(dev.blks)[root := m.block]
      ensures rootValid ==> nodes[root].block == old(nodes[root].block).(diskTime := now)
      ensures rootValid ==> root in dev.blks && dev.blks[root] == nodes[root].block
    {
      if rootValid {
        StampFits(nodes[root].block, now, dev.g.blockLongs, root);
        var m := nodes[root].WithBlock(StampDisk(nodes[root].block, now));
        dev.WriteBlock(root, m.block);
        nodes := nodes[root := m];
      }
    }

    ghost predicate StampsOk(d: nat)
      reads this`nodes, dev
    {
      DirBlockOk(d) && DirBlockOk(root) && nodes[root].block.Root? && dev.Sound()
    }

    /** The root block, when it is marked valid, tells this time of the last change. */
    ghost predicate ChangedAt(now: Time)
      reads this`nodes, this`rootValid
    {
      rootValid ==> root in nodes && nodes[root].block.Root? && nodes[root].block.diskTime == now
    }

    /** Every change of a directory ends with both stamps: the directory gets the time of change, and the root
        block, when it is marked valid, the time of the last change on the disk. */
    method StampBoth(d: nat, now: Time)
      requires StampsOk(d)
      modifies this`nodes, dev
      ensures dev.Sound() && nodes.Keys == old(nodes.Keys)
      ensures forall y :: y in nodes && y != d && y != root ==> nodes[y] == old(nodes[y])
      ensures forall b :: b in old(dev.blks) && b != d && b != root ==>
        b in dev.blks && dev.blks[b] == old(dev.blks[b])
      ensures d in nodes && root in nodes && nodes[root].block.Root?
      ensures nodes[d].block.Root? || nodes[d].block.UserDir?
      ensures var m := nodes[d].block.meta; m.days == now.days && m.mins == now.mins && m.ticks == now.ticks
      ensures nodes[root].block.diskTime == if rootValid then now else old(nodes[root].block.diskTime)
      ensures old(Valid() && bitmap.dirty && IsDirNode(State(), x, d)) ==> Valid() && IsDirNode(State(), x, d)
    {
      hide Inv, BitmapOk, StoreOk, Storable, KeyOk, DiskSound, StampBlock, StampDisk;
      ghost var good := Valid() && bitmap.dirty && IsDirNode(State(), x, d);
      ghost var v := State();
      if good { StampedInv(c, v, x, d, now); }
      UpdateDirModTime(d, now);
      ghost var w := State();
      assert w == Replaced(v, d, nodes[d]);
      if good { DiskStampedInv(c, w, x, now); }
      UpdateDiskTime(now);
      assert rootValid ==> State() == Replaced(w, root, nodes[root]);
      assert !rootValid ==> State() == w;
    }

    lemma StampReady(d: nat)
      requires Valid() && IsDirNode(State(), x, d)
      ensures StampsOk(d)
    {
      hide Inv, Storable, KeyOk, DiskSound, BitmapOk, StoreOk;
      DirFacts(c, State(), x, d);
      NodeFits(c, State(), x, d);
      RootPath(c, State(), x);
      NodeFits(c, State(), x, root);
    }

    // ----- creating -----

    /** The checks of `_create_node` in their order, then the allocation. */
    method Allot(d: nat, name: seq<byte>, num: nat) returns (err: Option<FsError>, h: nat, chain: nat, blks: seq<nat>)
      requires Valid() && IsDirNode(State(), x, d) && num > 0
      modifies bitmap, bitmap.data
      ensures Wired() && StoreOk() && BitmapOk() && bitmap.data == old(bitmap.data)
      ensures err == if !ValidPath(name) then Some(InvalidName)
        else if Child(x.path[d], name, intl) in x.fs then Some(NameExists)
        else if |old(bitmap.Free())| < num then Some(NoFreeBlocks) else None
      ensures err.Some? ==> bitmap.Free() == old(bitmap.Free())
      ensures err.None? ==> Distinct(blks) && |blks| == num && Elems(blks) <= old(bitmap.Free())
      ensures err.None? ==> bitmap.Free() == old(bitmap.Free()) - Elems(blks) && bitmap.dirty
      ensures err.Some? ==> bitmap.dirty == old(bitmap.dirty) && Stored() == old(Stored())
      ensures err.None? ==> |nodes[d].buckets| == c.HashSize() && h == Hash(name, intl, c.HashSize())
      ensures err.None? ==> chain == FileLayout.At(nodes[d].buckets[h], 0)
    {
      hide Inv, Hash, Upper, DirOk, ValidPath, Distinct, Elems, DiskSound, StoreOk, BitmapOk, Stored;
      h, chain, blks := 0, 0, [];
      var ok := IsValid(name);
      if !ok { return Some(InvalidName), h, chain, blks; }
      var exists' := HasName(d, name);
      if exists' { return Some(NameExists), h, chain, blks; }
      DirFacts(c, State(), x, d);
      h := HashName(name, intl, dev.g.blockLongs - 56);
      var hashChain := nodes[d].buckets[h];
      chain := if |hashChain| == 0 then 0 else hashChain[0];
      var got := TakeBlocks(num);
      if got.None? { return Some(NoFreeBlocks), h, chain, blks; }
      blks := got.value;
      err := None;
    }

    /** The allocation alone. */
    method TakeBlocks(num: nat) returns (r: Option<seq<nat>>)
      requires Wired() && StoreOk() && BitmapOk() && num > 0
      modifies bitmap, bitmap.data
      ensures StoreOk() && BitmapOk() && bitmap.data == old(bitmap.data)
      ensures r.None? <==> |old(bitmap.Free())| < num
      ensures r.None? ==> bitmap.Free() == old(bitmap.Free()) && bitmap.dirty == old(bitmap.dirty)
      ensures r.None? ==> Stored() == old(Stored())
      ensures r.Some? ==> Distinct(r.value) && |r.value| == num && Elems(r.value) <= old(bitmap.Free())
      ensures r.Some? ==> bitmap.Free() == old(bitmap.Free()) - Elems(r.value) && bitmap.dirty
    {
      hide Bitmaps.Bitmap.Valid, BitmapWords.FreeSet, BitmapWords.FirstFree, Distinct, Elems, Apart, InStore;
      hide ExtsLinked, ExtPtrs, ExtsOnDisk, Used, NumBitmapBlks, Times, BlkBytes, ExtsFit;
      r := bitmap.AllocN(num);
    }

    /** `_create_node`, after the blocks of the new node are written: hash table, bucket, entries. */
    method LinkNew(d: nat, h: nat, id: nat, node: Node)
      requires c.Valid() && c.g == dev.g && d in nodes && IsDir(c, nodes[d]) && h < c.HashSize()
      requires DirBlockOk(d) && id < 0x1_0000_0000 && id != d && dev.Sound()
      modifies this`nodes, dev
      ensures var dn := NewParent(old(nodes[d]), h, id);
        nodes == old(nodes)[d := dn][id := node] && dev.blks == old(dev.blks)[d := dn.block]
      ensures nodes[d].entries == old(nodes[d].entries) + [id] && nodes[d].Table()[h] == id
      ensures nodes[d].buckets[h] == [id] + old(nodes[d].buckets[h])
      ensures dev.Sound() && DirBlockOk(d) && (nodes[d].block.Root? <==> old(nodes[d].block.Root?))
    {
      hide Storable, KeyOk, DiskSound;
      TableFits(nodes[d].block, h, id, dev.g.blockLongs, d);
      // update my dir
      var dn := nodes[d];
      dn := dn.WithTable(dn.Table()[h := id]);
      dev.WriteBlock(d, dn.block);
      // add node
      dn := DirNode(dn.block, dn.up, dn.entries + [id], dn.buckets[h := [id] + dn.buckets[h]]);
      nodes := nodes[d := dn][id := node];
    }

    /** Link a written node into its directory; `n` is the creation as the invariant sees it. */
    method LinkIn(d: nat, h: nat, id: nat, node: Node, ghost n: Creation, ghost v: Vol)
      requires Wired() && StoreOk() && BitmapOk() && bitmap.dirty && IsDirNode(v, x, d)
      requires v.nodes == nodes && dev.blks == n.disk && bitmap.Free() == v.free - n.own
      requires n.dir == d && n.bucket == h && n.id == id && n.node == node
      requires IsDir(c, nodes[d]) && h < c.HashSize() && id < 0x1_0000_0000 && id !in nodes && StampsOk(d)
      modifies this`nodes, this`x, dev
      ensures StampsOk(d) && id != d && id != root && id in nodes && nodes[id] == node
      ensures id in old(dev.blks) ==> id in dev.blks && dev.blks[id] == old(dev.blks[id])
      ensures Vacant(c, v, old(x), n) && NewNode(c, n) && Inv(c, v, old(x)) ==>
        Valid() && IsDirNode(State(), x, d) && x == InsertedIndex(old(x), n)
    {
      hide Inv, DirOk, BitmapOk, StoreOk, NewNode, Vacant, Storable, DiskSound, KeyOk;
      LinkNew(d, h, id, node);
      if Vacant(c, v, x, n) && NewNode(c, n) && Inv(c, v, x) { InsertInv(c, v, x, n); }
      x := InsertedIndex(x, n);
    }

    /** What creating `e` did when every check passed but the entry does not fit its block: the write of the
        header raised with the blocks taken, or the device keeps only part of the strings. */
    ghost predicate Broken(err: Option<FsError>, id: nat, name: seq<byte>)
      reads this`nodes, dev
    {
      err.None? ==>
        && id in nodes && id in dev.blks && nodes[id].Name() == name
        && dev.blks[id] == Trimmed(nodes[id].block) != nodes[id].block
    }

    /** `ADFSDir.create_dir`.  The volume stays good exactly when a check refuses or the entry fits its
        block. */
    method CreateDir(d: nat, name: seq<byte>, meta: Meta, now: Time) returns (err: Option<FsError>, id: nat)
      requires Valid() && IsDirNode(State(), x, d)
      modifies this`nodes, this`x, dev, bitmap, bitmap.data
      ensures bitmap.data == old(bitmap.data)
      ensures var r := CreateIn(c, old(x.fs), old(x.path[d]), name, Folder);
        && (Valid() <==> r.0 != Done || EntryFits(name, meta, Folder))
        && (Valid() ==> r == (if err.None? then Done else Fail(err.value), x.fs))
        && (r.0 != Done ==> State() == old(State()) && x == old(x))
        && (r.0 == Done ==> err == if EntryWrites(name, meta, Folder) then None else Some(Crash))
        && (!Valid() ==> Broken(err, id, name))
      ensures err == if !ValidPath(name) then Some(InvalidName)
        else if old(x.path[d]) + [Upper(name, intl)] in old(x.fs) then Some(NameExists)
        else if |old(bitmap.Free())| < 1 then Some(NoFreeBlocks)
        else if |name| < 256 && |meta.comment| < 256 then None else Some(Crash)
      ensures err == Some(Crash) ==> nodes == old(nodes) && dev.blks == old(dev.blks) && x == old(x)
      ensures err == Some(Crash) ==> |bitmap.Free()| + 1 == |old(bitmap.Free())|
      ensures err.None? ==> id in nodes && id !in old(nodes) && nodes[id].DirNode? && nodes[id].up == Some(d)
      ensures err.None? ==> var b := nodes[id].block;
        b.UserDir? && b.ownKey == id && b.parent == d && b.name == name && b.meta == meta
      ensures err.None? ==> d in nodes && (nodes[d].block.Root? || nodes[d].block.UserDir?)
      ensures err.None? ==> Time(nodes[d].block.meta.days, nodes[d].block.meta.mins, nodes[d].block.meta.ticks) == now
      ensures err.None? ==> ChangedAt(now)
    {
      hide Inv, Hash, Upper, DirOk, ValidPath, BitmapOk, StoreOk, Distinct, Elems, TotalCost, NewNode, Vacant;
      hide EntryFits, EntryWrites, DiskSound, Trimmed, Bitmaps.Bitmap.Valid, BitmapWords.FreeSet;
      ghost var v := State();
      RoomIsFree(c, v, x);
      var h, chain, blks;
      err, h, chain, blks := Allot(d, name, 1);
      if err.Some? { id := 0; return; }
      id := blks[0];
      IdIsFs(c, v, x, Child(x.path[d], name, intl));
      LostCount(v.free, blks);
      var ok := InstallDir(d, name, meta, h, chain, blks, v);
      if !ok {
        LeakBreaks(c, v, x, Elems(blks));
        assert State() == v.(free := v.free - Elems(blks));
        return Some(Crash), id;
      }
      StampBoth(d, now);
      if !EntryFits(name, meta, Folder) { UnmirroredBreaks(c, State(), x, id); }
    }

    /** `blocks_create_new` for a directory on the allocated block, and its entry in the parent; `v` is the
        volume before the allocation. */
    method InstallDir(d: nat, name: seq<byte>, meta: Meta, h: nat, chain: nat, blks: seq<nat>, ghost v: Vol)
      returns (ok: bool)
      requires Wired() && StoreOk() && BitmapOk() && bitmap.dirty && Inv(c, v, x) && IsDirNode(v, x, d)
      requires v.disk == dev.blks && v.nodes == nodes && bitmap.Free() == v.free - Elems(blks)
      requires Distinct(blks) && Elems(blks) <= v.free && |blks| == 1 && dev.Sound()
      requires |nodes[d].buckets| == c.HashSize() && h == Hash(name, intl, c.HashSize())
      requires chain == FileLayout.At(nodes[d].buckets[h], 0) && Child(x.path[d], name, intl) !in x.ids
      modifies this`nodes, this`x, dev
      ensures dev.Sound() && (ok <==> EntryWrites(name, meta, Folder))
      ensures ok <==> |name| < 256 && |meta.comment| < 256
      ensures !ok ==> nodes == old(nodes) && dev.blks == old(dev.blks) && x == old(x)
      ensures ok ==> StampsOk(d) && blks[0] != d && blks[0] != root
      ensures ok ==> blks[0] !in old(nodes) && blks[0] in nodes
      ensures ok ==> nodes[blks[0]].DirNode? && nodes[blks[0]].up == Some(d)
      ensures ok ==> var b := nodes[blks[0]].block;
        b.UserDir? && b.ownKey == blks[0] && b.parent == d && b.name == name && b.hashChain == chain && b.meta == meta
      ensures ok && !EntryFits(name, meta, Folder) ==> Broken(None, blks[0], name)
      ensures EntryFits(name, meta, Folder) ==> Valid() && IsDirNode(State(), x, d)
      ensures EntryFits(name, meta, Folder) ==> x.fs == old(x.fs)[Child(old(x.path[d]), name, intl) := Folder]
    {
      hide Inv, Hash, Upper, DirOk, BitmapOk, StoreOk, Distinct, Elems, NewNode, Vacant, Storable, NumbersFit;
      hide DiskSound, KeyOk, Trimmed, FileLayout.At, ZeroNums, NoBuckets;
      // create a UserDirBlock
      var id := blks[0];
      CreateReady(c, v, x, d, h, blks);
      var ud := UserDir(id, d, name, chain, ZeroNums(dev.g.blockLongs - 56), meta);
      NewDirFits(ud, dev.g.blockLongs, h);
      ok := |name| < 256 && |meta.comment| < 256;
      if !ok { return; }
      TrimmedIff(ud, dev.g.blockLongs);
      FileLayout.TrimmedKey(id, ud);
      dev.WriteBlock(id, Trimmed(ud));
      var node := DirNode(ud, Some(d), [], NoBuckets(dev.g.blockLongs - 56));
      ghost var n := Creation(d, h, Child(x.path[d], name, intl), id, node, Elems(blks), dev.blks, Folder);
      if EntryFits(name, meta, Folder) { NewDirNode(c, v, x, blks, n, ud); }
      LinkIn(d, h, id, node, n, v);
    }

    /** `ADFSDir.create_file`; the new node keeps the data it was given.  The volume stays good exactly when a
        check refuses or the entry fits its block. */
    method CreateFile(d: nat, name: seq<byte>, data: seq<byte>, meta: Meta, now: Time)
      returns (err: Option<FsError>, id: nat)
      requires Valid() && IsDirNode(State(), x, d)
      modifies this`nodes, this`x, dev, bitmap, bitmap.data
      ensures bitmap.data == old(bitmap.data)
      ensures var r := CreateIn(c, old(x.fs), old(x.path[d]), name, Contents(data));
        && (Valid() <==> r.0 != Done || EntryFits(name, meta, Contents(data)))
        && (Valid() ==> r == (if err.None? then Done else Fail(err.value), x.fs))
        && (r.0 != Done ==> State() == old(State()) && x == old(x))
        && (r.0 == Done ==> err == if EntryWrites(name, meta, Contents(data)) then None else Some(Crash))
        && (!Valid() ==> Broken(err, id, name))
      ensures err == if !ValidPath(name) then Some(InvalidName)
        else if old(x.path[d]) + [Upper(name, intl)] in old(x.fs) then Some(NameExists)
        else if |old(bitmap.Free())| < FileLayout.NumBlocks(dev.g, ffs, |data|) then Some(NoFreeBlocks)
        else if |name| < 256 && |meta.comment| < 256 && |data| < 0x1_0000_0000 then None else Some(Crash)
      ensures err == Some(Crash) ==> nodes == old(nodes) && dev.blks == old(dev.blks) && x == old(x)
      ensures err == Some(Crash) ==>
        |bitmap.Free()| + FileLayout.NumBlocks(dev.g, ffs, |data|) == |old(bitmap.Free())|
      ensures err.None? ==> id in nodes && id !in old(nodes) && nodes[id].FileNode? && nodes[id].up == Some(d)
      ensures err.None? ==> nodes[id].cache == Some(data)
      ensures err.None? ==> var b := nodes[id].block;
        && b.FileHeader? && b.ownKey == id && b.parent == d && b.name == name
        && b.byteSize == |data| && b.meta == meta
      ensures err.None? ==> d in nodes && (nodes[d].block.Root? || nodes[d].block.UserDir?)
      ensures err.None? ==> Time(nodes[d].block.meta.days, nodes[d].block.meta.mins, nodes[d].block.meta.ticks) == now
      ensures err.None? ==> ChangedAt(now)
      ensures err.None? && Valid() ==> id in x.path && x.path[id] == Child(old(x.path[d]), name, intl)
    {
      hide Inv, Hash, Upper, DirOk, ValidPath, BitmapOk, StoreOk, Distinct, Elems, TotalCost, NewNode, Vacant;
      hide FileLayout.WroteFile, FileLayout.HeaderRec, FileLayout.NumBlocks, FileLayout.CountsOk, EntryFits;
      hide EntryWrites, DiskSound, Trimmed, Bitmaps.Bitmap.Valid;
      hide BitmapWords.FreeSet;
      ghost var v := State();
      RoomIsFree(c, v, x);
      CostOfFile(c, data);
      var h, chain, blks;
      err, h, chain, blks := Allot(d, name, FileLayout.NumBlocks(dev.g, ffs, |data|));
      if err.Some? { id := 0; return; }
      IdIsFs(c, v, x, Child(x.path[d], name, intl));
      LostCount(v.free, blks);
      var ok;
      ok, id := InstallFile(d, name, data, meta, h, chain, blks, v);
      if !ok {
        LeakBreaks(c, v, x, Elems(blks));
        assert State() == v.(free := v.free - Elems(blks));
        return Some(Crash), id;
      }
      StampBoth(d, now);
      if EntryFits(name, meta, Contents(data)) {
        PathKept(c, State(), x, id);
      } else {
        UnmirroredBreaks(c, State(), x, id);
      }
    }

    /** `blocks_create_new` for a file on the allocated blocks, and its entry in the directory; `v` is the
        volume before the allocation. */
    method InstallFile(d: nat, name: seq<byte>, data: seq<byte>, meta: Meta, h: nat, chain: nat,
                       blks: seq<nat>, ghost v: Vol)
      returns (ok: bool, id: nat)
      requires Wired() && StoreOk() && BitmapOk() && bitmap.dirty && Inv(c, v, x) && IsDirNode(v, x, d)
      requires v.disk == dev.blks && v.nodes == nodes && bitmap.Free() == v.free - Elems(blks)
      requires Distinct(blks) && Elems(blks) <= v.free && |blks| == FileLayout.NumBlocks(c.g, ffs, |data|)
        && dev.Sound()
      requires |nodes[d].buckets| == c.HashSize() && h == Hash(name, intl, c.HashSize())
      requires chain == FileLayout.At(nodes[d].buckets[h], 0) && Child(x.path[d], name, intl) !in x.ids
      modifies this`nodes, this`x, dev
      ensures dev.Sound() && (ok <==> EntryWrites(name, meta, Contents(data)))
      ensures ok <==> |name| < 256 && |meta.comment| < 256 && |data| < 0x1_0000_0000
      ensures !ok ==> nodes == old(nodes) && dev.blks == old(dev.blks) && x == old(x)
      ensures ok ==> StampsOk(d) && id != d && id != root && id in nodes && nodes[id].FileNode?
      ensures ok ==> id == blks[0] && id !in old(nodes) && nodes[id].up == Some(d) && nodes[id].cache == Some(data)
      ensures ok ==> var b := nodes[id].block;
        && b.FileHeader? && b.ownKey == id && b.parent == d && b.name == name && b.hashChain == chain
        && b.byteSize == |data| && b.meta == meta
      ensures ok && !EntryFits(name, meta, Contents(data)) ==> Broken(None, id, name)
      ensures EntryFits(name, meta, Contents(data)) ==> Valid() && IsDirNode(State(), x, d)
      ensures EntryFits(name, meta, Contents(data)) ==> var p := Child(old(x.path[d]), name, intl);
        x.fs == old(x.fs)[p := Contents(data)] && id in x.path && x.path[id] == p
    {
      hide Inv, Hash, Upper, DirOk, BitmapOk, StoreOk, Distinct, Elems, NewNode, Vacant, Storable, NumbersFit;
      hide FileLayout.WroteFile, FileLayout.HeaderRec, FileLayout.NumBlocks, FileLayout.CountsOk, DiskSound;
      hide KeyOk, Trimmed, FileLayout.At, FileLayout.HeaderFits, EntryWrites;
      CostOfFile(c, data);
      CreateReady(c, v, x, d, h, blks);
      var ext, dat;
      ok, id, ext, dat := FileLayout.CreateBlocks(dev, ffs, blks, name, data, chain, d, meta);
      var fhb := FileLayout.HeaderRec(dev.g, id, d, name, chain, |data|, ext, dat, meta);
      NewFileFits(dev.g, blks, id, d, name, chain, data, ext, dat, meta);
      if !ok { return; }
      FileWritten(dev.g, ffs, v.disk, blks, Trimmed(fhb), id, ext, dat, data, d);
      FileWritten(dev.g, ffs, v.disk, blks, Trimmed(fhb), id, ext, dat, data, root);
      var node := FileNode(fhb, Some(d), ext, dat, Some(data));
      ghost var n := Creation(d, h, Child(x.path[d], name, intl), id, node, Elems(blks), dev.blks, Contents(data));
      if EntryFits(name, meta, Contents(data)) { NewFileNode(c, v, x, blks, n, name, chain, meta); }
      LinkIn(d, h, id, node, n, v);
    }

    // ----- reading -----

    /** Nothing kept, or what the file holds. */
    ghost predicate Keepable(id: nat, value: Option<seq<byte>>)
      reads this`x
    {
      id in x.path && x.path[id] in x.fs && (value.Some? ==> x.fs[x.path[id]] == Contents(value.value))
    }

    /** `set_file_data` and `flush`, on what the node keeps. */
    method SetCache(id: nat, value: Option<seq<byte>>)
      requires id in nodes && nodes[id].FileNode?
      modifies this`nodes
      ensures var n := old(nodes[id]); nodes == old(nodes)[id := FileNode(n.block, n.up, n.ext, n.dat, value)]
      ensures old(Valid()) && (value.None? || Keepable(id, value)) ==> Valid()
      ensures old(!(id in dev.blks && dev.blks[id] == nodes[id].block)) ==> !Valid()
    {
      hide Inv, BitmapOk, StoreOk, DiskSound;
      var n := nodes[id];
      var m := FileNode(n.block, n.up, n.ext, n.dat, value);
      if Valid() && (value.None? || Keepable(id, value)) {
        PathKept(c, State(), x, id);
        CacheShape(x, id, n, m);
        ReplacedInv(c, State(), x, id, m);
        HeaderOwned(c, State(), x, id);
        assert dev.blks[id := m.block] == dev.blks;
      }
      nodes := nodes[id := m];
      if c.Valid() && !(id in dev.blks && dev.blks[id] == n.block) { UnmirroredBreaks(c, State(), x, id); }
    }

    /** `get_file_data`, then `flush` unless the data is to stay cached. */
    method GetFileData(id: nat, cache: bool) returns (data: seq<byte>)
      requires Valid() && id in nodes && nodes[id].FileNode? && id in x.path && x.path[id] in x.fs
      modifies this`nodes
      ensures Valid() && nodes.Keys == old(nodes.Keys)
      ensures x.fs[x.path[id]] == Contents(data)
      ensures nodes[id].FileNode? && nodes[id].cache == if cache then Some(data) else None
    {
      hide Inv, BitmapOk, StoreOk, DiskSound;
      FileReads(c, State(), x, id);
      if nodes[id].cache.Some? {
        data := nodes[id].cache.value;
      } else {
        var r := FileLayout.ReadData(dev, ffs, nodes[id].dat, nodes[id].block.byteSize);
        data := r.value;
      }
      SetCache(id, if cache then Some(data) else None);
    }

    // ----- deleting -----

    /** The blocks that unlinking at a chain position may rewrite fit. */
    ghost predicate ChainOk(d: nat, h: nat, pos: nat)
      reads this`nodes
    {
      && DirBlockOk(d) && h < |nodes[d].buckets| && pos < |nodes[d].buckets[h]| && AreLongs(nodes[d].buckets[h])
      && (pos > 0 ==> var prev := nodes[d].buckets[h][pos - 1];
           prev in nodes && Storable(nodes[prev].block, dev.g.blockLongs) && KeyOk(prev, nodes[prev].block))
    }

    lemma ChainReady(d: nat, h: nat, pos: nat, id: nat)
      requires Valid() && VolumeRemoval.Removable(c, State(), VolumeRemoval.Removal(d, h, pos, id))
      ensures ChainOk(d, h, pos)
    {
      hide Inv, Storable, KeyOk, DiskSound, BitmapOk, StoreOk, Hash;
      RemoveReady(c, State(), x, VolumeRemoval.Removal(d, h, pos, id));
    }

    /** `_delete`, the chain and list part, at the position of the node in its bucket. */
    method Unlink(d: nat, h: nat, pos: nat, id: nat)
      requires c.Valid() && c.g == dev.g && VolumeRemoval.Removable(c, State(), VolumeRemoval.Removal(d, h, pos, id))
      requires ChainOk(d, h, pos) && dev.Sound()
      modifies this`nodes, dev
      ensures var v' := VolumeRemoval.Removed(c, old(State()), VolumeRemoval.Removal(d, h, pos, id));
        nodes == v'.nodes && dev.blks == v'.disk
      ensures dev.Sound()
    {
      hide Hash, Without, FileLayout.At, Storable, KeyOk, DiskSound, AreLongs;
      var names := nodes[d].buckets[h];
      // find next in hash list
      var nextBlk := if pos == |names| - 1 then 0 else names[pos + 1];
      NextAt(names, pos, nextBlk);
      NextLong(names, pos, nextBlk);
      // remove node from the hash chain
      if pos == 0 {
        TableFits(nodes[d].block, h, nextBlk, dev.g.blockLongs, d);
        var dn := nodes[d].WithTable(nodes[d].Table()[h := nextBlk]);
        dev.WriteBlock(d, dn.block);
        nodes := nodes[d := dn];
      } else {
        LinkFits(nodes[names[pos - 1]].block, nextBlk, dev.g.blockLongs, names[pos - 1]);
        var prev := nodes[names[pos - 1]].WithLink(nextBlk);
        dev.WriteBlock(names[pos - 1], prev.block);
        nodes := nodes[names[pos - 1] := prev];
      }
      // remove from my lists
      var dn := nodes[d];
      var buckets := dn.buckets[h := Without(names, id)];
      nodes := (nodes - {id})[d := DirNode(dn.block, dn.up, Without(dn.entries, id), buckets)];
    }

    /** The block holds nothing but zeros. */
    ghost predicate Zeroed(b: nat)
      reads dev
    {
      && b in dev.blks && dev.blks[b].Raw? && |dev.blks[b].bytes| == 4 * dev.g.blockLongs
      && forall k :: 0 <= k < 4 * dev.g.blockLongs ==> dev.blks[b].bytes[k] == 0
    }

    /** The optional wiping of the freed blocks. */
    method Wipe(blkNums: seq<nat>)
      requires Valid() && bitmap.dirty && forall b :: b in blkNums ==> b !in x.owner
      modifies dev
      ensures Valid()
      ensures forall b :: b in blkNums ==> Zeroed(b)
      ensures forall b :: b in old(dev.blks) && b !in blkNums ==> b in dev.blks && dev.blks[b] == old(dev.blks[b])
    {
      hide Inv, BitmapOk, StoreOk, DiskSound;
      ghost var v := State();
      for i := 0 to |blkNums|
        invariant dev.Sound()
        invariant forall j :: 0 <= j < i ==> Zeroed(blkNums[j])
        invariant forall b :: b in v.disk && b !in blkNums ==> b in dev.blks && dev.blks[b] == v.disk[b]
        invariant forall b :: b in v.disk && b in x.owner ==> b in dev.blks && dev.blks[b] == v.disk[b]
      {
        assert blkNums[i] in blkNums;
        dev.WriteBlock(blkNums[i], Raw(ZeroBytes(dev.g.BlockBytes())));
      }
      assert OwnersKept(v, x, dev.blks);
      UnownedWrites(c, v, x, dev.blks);
      assert State() == v.(disk := dev.blks);
    }

    /** Find the node in the bucket of its name. */
    method FindInChain(d: nat, id: nat) returns (h: nat, pos: nat)
      requires Valid() && id in nodes && id != root && nodes[id].up == Some(d)
      requires nodes[id].DirNode? ==> nodes[id].entries == []
      ensures VolumeRemoval.Removable(c, State(), VolumeRemoval.Removal(d, h, pos, id))
    {
      hide Inv, Hash, DirOk, FileOk, BitmapOk, StoreOk, Upper, DiskSound;
      ChildPath(c, State(), x, d, id);
      HeaderOwned(c, State(), x, d);
      DirFacts(c, State(), x, d);
      h := HashName(nodes[id].Name(), intl, dev.g.blockLongs - 56);
      var names := nodes[d].buckets[h];
      pos := 0;
      while pos < |names|
        invariant forall j :: 0 <= j < pos && j < |names| ==> names[j] != id
      {
        if names[pos] == id { break; }
        pos := pos + 1;
      }
      PrevIsSibling(c, State(), x, d, h, pos, id);
    }

    /** The bookkeeping of `_delete`: chain, lists and bitmap. */
    method RemoveNode(d: nat, h: nat, pos: nat, id: nat) returns (blkNums: seq<nat>)
      requires Valid() && id in nodes && id in x.path
        && VolumeRemoval.Removable(c, State(), VolumeRemoval.Removal(d, h, pos, id))
      modifies this`nodes, this`x, dev, bitmap, bitmap.data
      ensures Valid() && bitmap.data == old(bitmap.data) && IsDirNode(State(), x, d)
      ensures x.fs == old(x.fs) - {old(x.path[id])} && Kept(old(x), x)
      ensures bitmap.dirty && forall b :: b in blkNums ==> b !in x.owner
      ensures blkNums == old(nodes[id].Own(id)) && bitmap.Free() == old(bitmap.Free()) + Elems(blkNums)
    {
      hide Inv, Hash, BitmapOk, StoreOk, VolumeRemoval.Removable, Live, Distinct, ChainOk, DiskSound;
      blkNums := nodes[id].Own(id);
      ghost var v, r := State(), VolumeRemoval.Removal(d, h, pos, id);
      VolumeRemoval.RemoveInv(c, v, x, r);
      VolumeRemoval.RemovedNodes(c, v, r);
      RemovedDir(c, v, r);
      OwnInRange(c, v, x, id);
      ChainReady(d, h, pos, id);
      Unlink(d, h, pos, id);
      // remove blocks of node in bitmap
      FreeBlocks(blkNums);
      x := VolumeRemoval.RemovedIndex(x, id);
      assert State() == VolumeRemoval.Removed(c, v, r);
      DirStays(c, State(), x, d);
    }

    /** `ADFSDir._delete`. */
    method DeleteNode(d: nat, id: nat, wipe: bool, now: Time) returns (err: Option<FsError>)
      requires Valid() && id in nodes && id != root && nodes[id].up == Some(d) && id in x.path
      modifies this`nodes, this`x, dev, bitmap, bitmap.data
      ensures Valid() && bitmap.data == old(bitmap.data)
      ensures err == if Below(old(x.fs), old(x.path[id])) != map[] then Some(DeleteNotAllowed) else None
      ensures err.Some? ==> x == old(x) && State() == old(State())
      ensures err.None? ==> x.fs == old(x.fs) - {old(x.path[id])} && Kept(old(x), x)
      ensures err.None? ==> bitmap.Free() == old(bitmap.Free()) + Elems(old(nodes[id].Own(id)))
      ensures err.None? && wipe ==> forall b :: b in old(nodes[id].Own(id)) ==> Zeroed(b)
      ensures err.None? ==> d in nodes && (nodes[d].block.Root? || nodes[d].block.UserDir?)
      ensures err.None? ==> Time(nodes[d].block.meta.days, nodes[d].block.meta.mins, nodes[d].block.meta.ticks) == now
      ensures err.None? ==> ChangedAt(now)
    {
      hide Inv, BitmapOk, StoreOk, VolumeRemoval.Removable, Below, Kept, DiskSound;
      LeafIff(c, State(), x, id);
      // can we delete?
      if nodes[id].DirNode? && |nodes[id].entries| != 0 { return Some(DeleteNotAllowed); }
      var h, pos := FindInChain(d, id);
      var blkNums := RemoveNode(d, h, pos, id);
      if wipe { Wipe(blkNums); }
      HeaderOwner(c, State(), x, d);
      RootPath(c, State(), x);
      HeaderOwner(c, State(), x, root);
      StampReady(d);
      ghost var disk := dev.blks;
      StampBoth(d, now);
      assert wipe ==> forall b :: b in blkNums ==> b != d && b != root && b in disk && dev.blks[b] == disk[b];
      err := None;
    }

    method FreeBlocks(blkNums: seq<nat>)
      requires Wired() && BitmapOk() && StoreOk() && forall b :: b in blkNums ==> InRange(c.g, b)
      modifies bitmap, bitmap.data
      ensures BitmapOk() && StoreOk() && bitmap.data == old(bitmap.data)
      ensures bitmap.Free() == old(bitmap.Free()) + Elems(blkNums)
      ensures |blkNums| > 0 && blkNums[0] !in old(bitmap.Free()) ==> bitmap.dirty
    {
      hide Apart, InStore, BitmapWords.FreeSet, Elems, Range, ExtsFit;
      InsideDevice(c.g, blkNums);
      assert |blkNums| > 0 ==> blkNums[0] in blkNums;
      bitmap.DeallocN(blkNums);
    }

    /** `ADFSNode.delete`: with `all` the children go first, depth first.  `depth` bounds every path. */
    method DeleteTree(id: nat, wipe: bool, all: bool, now: Time, ghost depth: nat) returns (err: Option<FsError>)
      requires Valid() && id in nodes && id in x.path && DepthBound(x, depth)
      modifies this`nodes, this`x, dev, bitmap, bitmap.data
      ensures Valid() && bitmap.data == old(bitmap.data) && Kept(old(x), x)
      ensures DeleteOutcome(old(x.fs), old(x.path[id]), all) == (if err.None? then Done else Fail(err.value), x.fs)
      ensures old(x.path[id]) == [] ==> err == Some(Crash)
      ensures var p := old(x.path[id]);
        err.None? <==> p != [] && (all || forall q :: q in old(x.fs) && p <= q ==> q == p)
      ensures var p := old(x.path[id]);
        err.None? ==> forall q :: q in x.fs <==> q in old(x.fs) && !(p <= q)
      ensures err == Some(DeleteNotAllowed) ==> !all && x.fs == old(x.fs)
      ensures err.None? ==> ChangedAt(now)
      ensures forall q :: q in x.fs ==> q in old(x.fs) && x.fs[q] == old(x.fs)[q]
      decreases depth - |x.path[id]|, 1
    {
      hide Inv, BitmapOk, StoreOk, Below, WithoutBelow, DepthBound, Kept, DiskSound;
      ghost var p, x0 := x.path[id], x;
      IdPath(c, State(), x, id);
      WithinDepth(x, p, depth);
      KeptSelf(x);
      BelowEmpty(x.fs, p);
      OutcomeExact(x.fs, p, all);
      if all {
        DeleteChildren(id, wipe, now, depth);
        StillThere(c, State(), x0, x, p);
      }
      RootIff(c, State(), x, id);
      if nodes[id].up.None? { return Some(Crash); }
      ghost var x1 := x;
      err := DeleteNode(nodes[id].up.value, id, wipe, now);
      if err.None? { KeptTrans(x0, x1, x); }
    }

    /** `delete_children`: a file has none; a directory deletes a copy of its entry list. */
    method DeleteChildren(id: nat, wipe: bool, now: Time, ghost depth: nat)
      requires Valid() && id in nodes && id in x.path && DepthBound(x, depth) && |x.path[id]| <= depth
      modifies this`nodes, this`x, dev, bitmap, bitmap.data
      ensures Valid() && bitmap.data == old(bitmap.data) && Kept(old(x), x)
      ensures x.fs == WithoutBelow(old(x.fs), old(x.path[id]))
      ensures var p := old(x.path[id]); forall q :: q in x.fs <==> q in old(x.fs) && (p <= q ==> q == p)
      ensures forall q :: q in x.fs ==> x.fs[q] == old(x.fs)[q]
      decreases depth - |x.path[id]|, 0
    {
      hide Inv, BitmapOk, StoreOk, Below, WithoutBelow, DepthBound, Kept, Pruned, DiskSound;
      KeptSelf(x);
      LeafIff(c, State(), x, id);
      BelowEmpty(x.fs, x.path[id]);
      LessBelow(x.fs, x.path[id]);
      if nodes[id].FileNode? { return; }
      var entries := nodes[id].entries;
      ghost var v0, x0, p, ps := State(), x, x.path[id], EntryPaths(State(), x, id);
      EntryPathsOk(c, v0, x0, id);
      PrunedNone(x.fs, ps);
      for i := 0 to |entries|
        invariant Valid() && bitmap.data == old(bitmap.data) && Kept(x0, x)
        invariant x.fs == Pruned(x0.fs, ps, i)
      {
        PrunedKeeps(x0.fs, p, ps, i);
        IdIsFs(c, v0, x0, ps[i]);
        StillThere(c, State(), x0, x, ps[i]);
        DepthKept(x0, x, depth);
        ghost var x1 := x;
        var err := DeleteTree(entries[i], wipe, true, now, depth);
        KeptTrans(x0, x1, x);
        PrunedNext(x0.fs, ps, i);
      }
      PrunedAll(c, v0, x0, id, ps);
    }

    // ----- operations by path name -----

    /** `create_dir`. */
    method MakeDir(path: seq<byte>, now: Time) returns (r: Reply)
      requires Valid()
      modifies this`nodes, this`x, dev, bitmap, bitmap.data
      ensures Valid() && bitmap.data == old(bitmap.data)
      ensures (r, x.fs) == MakeDirSpec(c, old(x.fs), path)
      ensures !ValidPath(path) || DirAndBase(path).1.None? ==> r == Fail(InvalidName)
      ensures r != Done ==> x.fs == old(x.fs)
      ensures r == Done ==> ChangedAt(now)
      ensures r == Done ==> exists id :: (id in nodes && id !in old(nodes) && nodes[id].block.UserDir?
        && DirAndBase(path).1 == Some(nodes[id].block.name)
        && nodes[id].block.meta == Meta(0, [], now.days, now.mins, now.ticks))
    {
      hide Inv, BitmapOk, StoreOk, ValidPath, DirAndBase, CreateIn, TotalCost, DiskSound;
      RootPath(c, State(), x);
      var ok := IsValid(path);
      if !ok { return Fail(InvalidName); }
      DirValid(path);
      BaseShort(path);
      var (dirName, baseName) := DirAndBase(path);
      if baseName.None? { return Fail(InvalidName); }
      // find parent of dir
      var node := root;
      if dirName.Some? {
        var found := GetPathName(dirName.value, false, true);
        if found == Some(None) { return Fail(Crash); }
        node := found.value.value;
        ResolvedDir(c, State(), x, dirName.value, true);
      }
      var err, id := CreateDir(node, baseName.value, DefaultMeta(now), now);
      r := if err.None? then Done else Fail(err.value);
    }

    /** `get_create_path_name`; None for INVALID_FILE_NAME. */
    method GetCreatePathName(s: seq<byte>, suggest: Option<seq<byte>>)
      returns (r: Option<(Option<nat>, Option<seq<byte>>)>)
      requires Valid()
      ensures r.None? <==> CreateTarget(x.fs, s, suggest, intl).0.Bad?
      ensures r.Some? ==> r.value.1 == CreateTarget(x.fs, s, suggest, intl).1
      ensures r.Some? && r.value.0.None? <==> CreateTarget(x.fs, s, suggest, intl).0.Nothing?
      ensures r.Some? && r.value.0.Some? ==> var t := CreateTarget(x.fs, s, suggest, intl).0;
        t.Entry? && t.path in x.ids && r.value.0.value == x.ids[t.path] && t.path in x.fs && x.fs[t.path] == Folder
    {
      hide Inv, ValidPath, RootAlias, DirAndBase, Split, Fold, DiskSound;
      RootPath(c, State(), x);
      var ok := IsValid(s);
      if !ok { return None; }
      DirValid(s);
      if RootAlias(s) { return Some((Some(root), suggest)); }
      // try to get path_name as a directory
      var found := GetPathName(s, false, true);
      ResolvedDir(c, State(), x, s, true);
      if found.value.Some? { return Some((found.value, suggest)); }
      // split into dir and file name
      var (dir, base) := DirAndBase(s);
      var node := Some(root);
      if dir.Some? {
        found := GetPathName(dir.value, false, true);
        ResolvedDir(c, State(), x, dir.value, true);
        node := found.value;
      }
      r := Some((node, if base.Some? then base else suggest));
    }

    /** `write_file`; `sound` tells whether the file fits its header block. */
    method WriteFile(data: seq<byte>, path: seq<byte>, suggest: Option<seq<byte>>, cache: bool, now: Time)
      returns (r: Reply, sound: bool)
      requires Valid()
      modifies this`nodes, this`x, dev, bitmap, bitmap.data
      ensures bitmap.data == old(bitmap.data) && (Valid() <==> sound)
      ensures sound <==> !Breaks(c, old(x.fs), Op.WriteFile(data, path, suggest))
      ensures sound ==> (r, x.fs) == WriteFileSpec(c, old(x.fs), data, path, suggest)
      ensures r == Done ==> exists id :: (id in nodes && id !in old(nodes) && nodes[id].block.FileHeader?
        && CreateTarget(old(x.fs), path, suggest, intl).1 == Some(nodes[id].block.name)
        && nodes[id].block.meta == Meta(0, [], now.days, now.mins, now.ticks)
        && nodes[id].FileNode? && nodes[id].cache == if cache then Some(data) else None)
      ensures r == Done ==> ChangedAt(now)
    {
      hide Inv, BitmapOk, StoreOk, CreateTarget, CreateIn, TotalCost, DiskSound, ValidPath, Upper, Trimmed;
      sound := true;
      // get parent node and file_name
      var target := GetCreatePathName(path, suggest);
      if target.None? { return Fail(InvalidName), sound; }
      var (parentNode, fileName) := target.value;
      if parentNode.None? { return Fail(InvalidParent), sound; }
      if fileName.None? { return Fail(InvalidName), sound; }
      IdIsNode(c, State(), x, CreateTarget(x.fs, path, suggest, intl).0.path);
      // create file
      var err, id := CreateFile(parentNode.value, fileName.value, data, DefaultMeta(now), now);
      var fits := |fileName.value| <= NAME_FIELD && |data| < 0x1_0000_0000;
      if err.Some? {
        sound := err.value != Crash;
        return Fail(err.value), sound;
      }
      sound := fits;
      if !cache { SetCache(id, None); }
      r := Done;
    }

    /** `read_file`. */
    method ReadFile(path: seq<byte>, cache: bool) returns (r: Reply)
      requires Valid()
      modifies this`nodes
      ensures Valid() && r == ReadFileSpec(x.fs, path, intl) && r != Done
    {
      hide Inv, BitmapOk, StoreOk, ValidPath, RootAlias, Split, Fold, DiskSound;
      // get node of file
      var found := GetPathName(path, true, false);
      if found.None? { return Fail(InvalidName); }
      if found.value.None? { return Fail(NotFound); }
      var id := found.value.value;
      IdIsNode(c, State(), x, Resolve(x.fs, path, intl, true, false).path);
      PathKept(c, State(), x, id);
      // a directory node (the root, by an alias) has no file data
      if nodes[id].DirNode? { return Fail(Crash); }
      var data := GetFileData(id, cache);
      r := Data(data);
    }

    /** `delete`. */
    method Delete(path: seq<byte>, wipe: bool, all: bool, now: Time) returns (r: Reply)
      requires Valid()
      modifies this`nodes, this`x, dev, bitmap, bitmap.data
      ensures Valid() && bitmap.data == old(bitmap.data)
      ensures (r, x.fs) == DeleteSpec(old(x.fs), path, all, intl)
      ensures !ValidPath(path) ==> r == Fail(InvalidName)
      ensures ValidPath(path) && RootAlias(path) ==> r == Fail(Crash)
      ensures ValidPath(path) && RootAlias(path) && all ==> forall q :: q in x.fs <==> q in old(x.fs) && q == []
      ensures var p := Fold(Split(path), intl);
        ValidPath(path) && !RootAlias(path) ==> (r == Fail(NotFound) <==> p !in old(x.fs))
      ensures var p := Fold(Split(path), intl);
        ValidPath(path) && !RootAlias(path) ==> (r == Fail(DeleteNotAllowed) <==>
          p in old(x.fs) && !all && exists q :: q in old(x.fs) && p <= q && q != p)
      ensures var p := Fold(Split(path), intl);
        ValidPath(path) && !RootAlias(path) ==> (r == Done <==>
          p in old(x.fs) && (all || forall q :: q in old(x.fs) && p <= q ==> q == p))
      ensures var p := Fold(Split(path), intl);
        r == Done ==> forall q :: q in x.fs <==> q in old(x.fs) && !(p <= q)
      ensures r != Done && !(RootAlias(path) && all) ==> x.fs == old(x.fs)
      ensures r == Done ==> ChangedAt(now)
      ensures forall q :: q in x.fs ==> q in old(x.fs) && x.fs[q] == old(x.fs)[q]
    {
      hide Inv, BitmapOk, StoreOk, DeleteOutcome, Resolve, DepthBound, DiskSound;
      if ValidPath(path) && !RootAlias(path) {
        DeletionExact(x.fs, path, all, intl);
      } else {
        DeletionElse(x.fs, path, all, intl);
      }
      var found := GetPathName(path, true, true);
      if found.None? { return Fail(InvalidName); }
      if found.value.None? { return Fail(NotFound); }
      var id := found.value.value;
      IdIsNode(c, State(), x, Resolve(x.fs, path, intl, true, true).path);
      ghost var depth := SomeDepth(x);
      var err := DeleteTree(id, wipe, all, now, depth);
      r := if err.None? then Done else Fail(err.value);
    }

    /** One operation, as its specification on paths says, and the volume is good afterwards, exactly when
        it is none that breaks volumes. */
    method Perform(op: Op, env: Env) returns (r: Reply, sound: bool)
      requires Valid()
      modifies this`nodes, this`x, dev, bitmap, bitmap.data
      ensures bitmap.data == old(bitmap.data) && (Valid() <==> sound)
      ensures sound <==> !Breaks(c, old(x.fs), op)
      ensures sound ==> (r, x.fs) == Step(c, old(x.fs), op)
      ensures r == Done ==> ChangedAt(env.now)
    {
      hide Inv, BitmapOk, StoreOk, MakeDirSpec, WriteFileSpec, ReadFileSpec, DeleteSpec, DiskSound;
      sound := true;
      match op
      case MakeDir(path) => r := MakeDir(path, env.now);
      case WriteFile(data, path, suggest) => r, sound := WriteFile(data, path, suggest, env.cache, env.now);
      case ReadFile(path) => r := ReadFile(path, env.cache);
      case Delete(path, all) => r := Delete(path, env.wipe, all, env.now);
    }

    /** A whole run: every reply, and the map at the end, are those of the specification, whatever
        blocks, chains, stamps, caching and wiping went on underneath, exactly when no operation of the run
        breaks the volume (`FitNeverBreaks`: none with fitting arguments does); then the used counter has not
        moved against the count either.  After a breaking operation the run is given up. */
    method RunAll(ops: seq<Op>, envs: seq<Env>) returns (replies: seq<Reply>, sound: bool)
      requires Valid() && |envs| == |ops|
      modifies this`nodes, this`x, dev, bitmap, bitmap.data
      ensures Valid() <==> sound
      ensures sound <==> RunHolds(c, old(x.fs), ops, |ops|)
      ensures sound ==> (replies, x.fs) == Run(c, old(x.fs), ops, |ops|)
      ensures sound ==> bitmap.Drift() == old(bitmap.Drift())
      ensures sound ==> |replies| == |ops|
      ensures sound && rootValid && |ops| > 0 && replies[|ops| - 1] == Done ==>
        root in nodes && nodes[root].block.Root? && nodes[root].block.diskTime == envs[|ops| - 1].now
    {
      hide Inv, StoreOk, Step, Breaks, DiskSound, Bitmaps.Bitmap.Valid;
      replies := [];
      for i := 0 to |ops|
        invariant Valid() && bitmap.data == old(bitmap.data)
        invariant RunHolds(c, old(x.fs), ops, i) && (replies, x.fs) == Run(c, old(x.fs), ops, i)
        invariant |replies| == i && (i > 0 && replies[i - 1] == Done ==> ChangedAt(envs[i - 1].now))
      {
        var r;
        r, sound := Perform(ops[i], envs[i]);
        replies := replies + [r];
        if !sound {
          BrokenRun(c, old(x.fs), ops, i, |ops|);
          return;
        }
      }
      sound := true;
    }

    /** `open` on the device of a volume that was closed: every check passes, every directory scan ends,
        and the volume stands for the same map, ready for the next run. */
    method Open(ghost closed: Volume) returns (err: Option<BitmapError>)
      requires closed.Valid() && closed.Stored() && closed.dev == dev && closed.root == root
      requires closed.ffs == ffs && closed.intl == intl && closed.bitmap != bitmap && closed != this
      requires Wired() && bitmap.Valid()
      modifies this, bitmap
      ensures err == None && Valid() && fresh(bitmap.data) && c == closed.c
      ensures x.fs == closed.x.fs && bitmap.Free() == closed.bitmap.Free() && rootValid
    {
      hide Inv, Apart, InStore, ExtsLinked, ExtsOnDisk, ExtsFit, Used, ExtPtrs, NumBitmapBlks, Times, BlkBytes;
      hide BitmapWords.FreeSet, DiskSound, Bitmaps.Bitmap.Valid, Bitmaps.Bitmap.Stores, DirOk;
      ghost var v, x0 := closed.State(), closed.x;
      c := closed.c;
      RootPath(c, v, x0);
      HeaderOwned(c, v, x0, root);
      RootPtrs(c, v, x0);
      // create root dir
      var rootBlk := dev.blks[root];
      nodes := ReadTree(rootBlk, c, v, x0);
      x := x0;
      // create bitmap
      err := OpenBitmap(rootBlk, closed.bitmap);
      rootValid := true;
      drift := bitmap.Drift();
    }

    /** The directory part of `open`: every node the device shows, from the root directory down. */
    method ReadTree(rootBlk: Block, ghost c0: Config, ghost v: Vol, ghost x0: Index) returns (ns: map<nat, Node>)
      requires c0.Valid() && Inv(c0, v, x0) && v.disk == dev.blks && c0.g == dev.g && c0.ffs == ffs && c0.root == root
      requires root in v.nodes && rootBlk == v.nodes[root].block && rootBlk.Root?
      ensures Inv(c0, Vol(v.disk, ns, v.free), x0)
    {
      hide Inv, Hash, DepthBound, VolumeLoad.Covers, VolumeLoad.Loaded, VolumeLoad.Reloaded, DirOk;
      RootPath(c0, v, x0);
      DirFacts(c0, v, x0, root);
      RootIff(c0, v, x0, root);
      ghost var depth := SomeDepth(x0);
      WithinDepth(x0, [], depth);
      VolumeLoad.NothingLoaded(v);
      var table := rootBlk.rootTable;
      var rootDir, below := VolumeLoad.ReadDir(dev, ffs, root, None, rootBlk, table, map[], c0, v, x0, depth);
      VolumeLoad.AllLoaded(c0, v, x0, rootDir, below);
      ns := below[root := rootDir];
      VolumeLoad.ReloadInv(c0, v, x0, ns);
    }

    /** The bitmap part of `open`. */
    method OpenBitmap(rootBlk: Block, ghost stored: Bitmaps.Bitmap) returns (err: Option<BitmapError>)
      requires bitmap.Valid() && stored.Valid() && stored != bitmap && stored.dev == bitmap.dev && rootBlk.Root?
      requires ExtsLinked(rootBlk.bitmapExt, stored.extBlks) && ExtsOnDisk(bitmap.dev.blks, stored.extBlks)
      requires AllPtrs(rootBlk, stored.extBlks) == stored.bitmapBlks && stored.Stores(stored.data[..])
      requires stored.data.Length == Times(|stored.bitmapBlks|, BlkBytes(bitmap.dev.g))
      requires |stored.bitmapBlks| == NumBitmapBlks(bitmap.dev.g)
      modifies bitmap
      ensures err == None && bitmap.Valid() && fresh(bitmap.data)
      ensures bitmap.extBlks == stored.extBlks && bitmap.bitmapBlks == stored.bitmapBlks && bitmap.view == stored.view
      ensures bitmap.data[..] == stored.data[..] && bitmap.Stores(bitmap.data[..])
    {
      hide ExtsLinked, ExtsOnDisk, AreBitmaps, Collected, BitmapWords.FreeSet, BitmapWords.Bits, BitmapWords.Fits;
      hide ReadError, Used, ExtPtrs;
      VolumeLoad.StoredReads(bitmap.dev.g, bitmap.dev.blks, stored.bitmapBlks, stored.data[..]);
      err := bitmap.Read(rootBlk, stored.extBlks);
    }

    /** `close`: the bitmap and the root block reach the device, nothing else changes. */
    method Close()
      requires Valid()
      modifies bitmap`dirty, dev
      ensures Valid() && Stored() && !bitmap.dirty
    {
      hide Inv, Apart, InStore, Times, BlkBytes, BitmapWords.FreeSet, ExtsOnDisk, ExtsFit, NumbersFit;
      hide DiskSound;
      ghost var v := State();
      RootPath(c, v, x);
      HeaderOwned(c, v, x, root);
      NodeFits(c, v, x, root);
      TrimmedIff(nodes[root].block, dev.g.blockLongs);
      var ok := bitmap.Write(nodes[root].block);
      forall b | b in x.owner && b in v.disk ensures b in dev.blks && dev.blks[b] == v.disk[b] {
        OwnedNotSys(c, v, x, b);
      }
      assert OwnersKept(v, x, dev.blks);
      UnownedWrites(c, v, x, dev.blks);
      assert State() == v.(disk := dev.blks);
    }
  }
}
