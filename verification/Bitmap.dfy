/** `ADFSBitmap`: the block allocator of a volume and its storage in bitmap blocks. */
module Bitmaps {
  import opened Bytes
  import Seqs
  import Device
  import opened BitmapWords
  import opened BitmapStore

  class Bitmap {
    const dev: Device.BlockDevice
    const rootNum: nat
    // in-memory extension blocks and the numbers of the bitmap blocks
    var extBlks: seq<ExtBlock>
    var bitmapBlks: seq<nat>
    var data: array<byte>
    // rotating search start, as a long offset
    var findStart: nat
    var numUsed: int
    var dirty: bool
    // one truth value per block from `reserved` on: true means free
    ghost var view: seq<bool>

    ghost predicate Valid()
      reads this`data, this`findStart, this`view, data
    {
      && dev.g.Valid()
      && dev.g.reserved <= rootNum < dev.g.numBlocks
      && |view| == NumBits(dev.g) && findStart < Longs(view)
      && Holds()
    }

    /** The packed bytes stand for `view`. */
    ghost predicate Holds()
      requires dev.g.Valid()
      reads this`data, this`view, data
    {
      Fits(dev.g, data[..]) && Bits(dev.g, data[..]) == view
    }

    ghost function Free(): set<nat>
      reads this`view
    {
      FreeSet(dev.g.reserved, view)
    }

    /** How far `num_used` is off from what `get_num_used` counts; no operation changes it. */
    ghost function Drift(): int
      reads this`view, this`numUsed
    {
      numUsed - CountUsed(view, |view|)
    }

    constructor (dev: Device.BlockDevice, rootNum: nat)
      requires dev.g.Valid() && dev.g.reserved <= rootNum < dev.g.numBlocks
      ensures Valid() && fresh(data)
      ensures this.dev == dev && this.rootNum == rootNum && extBlks == [] && bitmapBlks == []
      ensures findStart == (rootNum - dev.g.reserved) / 32 && numUsed == 0
    {
      this.dev, this.rootNum := dev, rootNum;
      extBlks, bitmapBlks := [], [];
      data := new byte[DataBytes(dev.g)];
      findStart := (rootNum - dev.g.reserved) / 32;
      numUsed, dirty := 0, false;
      DataFits(dev.g);
      LongsBounds(NumBits(dev.g));
      new;
      view := Bits(dev.g, data[..]);
    }

    // ----- single blocks -----

    method GetBit(b: nat) returns (r: Option<bool>)
      requires Valid()
      ensures r == if dev.g.reserved <= b < dev.g.numBlocks then Some(b in Free()) else None
      ensures r.Some? ==> r.value == view[b - dev.g.reserved]
    {
      if b < dev.g.reserved || b >= dev.g.numBlocks { return None; }
      var o := b - dev.g.reserved;
      BitFits(dev.g, data[..], o);
      var val := LongAt(data[..], o / 32 * 4);
      FirstBitsAt(data[..], NumBits(dev.g), o);
      r := Some(HasBit(val, o % 32));
      assert r.value == view[o] == FreeAt(dev.g.reserved, view, b);
    }

    /** Mark as free. */
    method SetBit(b: nat)
      requires Valid()
      modifies this`numUsed, this`dirty, this`view, data
      ensures Valid() && Drift() == old(Drift())
      ensures view == if dev.g.reserved <= b < dev.g.numBlocks
        then old(view)[b - dev.g.reserved := true] else old(view)
      ensures old(dirty) || (dev.g.reserved <= b < dev.g.numBlocks && !old(view)[b - dev.g.reserved]) ==> dirty
    {
      if b < dev.g.reserved || b >= dev.g.numBlocks { return; }
      var o := b - dev.g.reserved;
      MarkedCount(view, o, true, |view|);
      var isFree := GetBit(b);
      if isFree == Some(false) {
        MarkBit(data, o, true, dev.g);
        dirty := true;
        numUsed := numUsed - 1;
        view := view[o := true];
      }
    }

    /** Mark as used. */
    method ClrBit(b: nat)
      requires Valid()
      modifies this`numUsed, this`dirty, this`view, data
      ensures Valid() && Drift() == old(Drift())
      ensures view == if dev.g.reserved <= b < dev.g.numBlocks
        then old(view)[b - dev.g.reserved := false] else old(view)
      ensures old(dirty) || (dev.g.reserved <= b < dev.g.numBlocks && old(view)[b - dev.g.reserved]) ==> dirty
    {
      if b < dev.g.reserved || b >= dev.g.numBlocks { return; }
      var o := b - dev.g.reserved;
      MarkedCount(view, o, false, |view|);
      var isFree := GetBit(b);
      if isFree == Some(true) {
        MarkBit(data, o, false, dev.g);
        dirty := true;
        numUsed := numUsed + 1;
        view := view[o := false];
      }
    }

    method GetNumUsed() returns (num: nat)
      requires Valid()
      ensures num == CountUsed(view, |view|) == |UsedSet(dev.g.reserved, view)|
    {
      num := 0;
      ghost var bits := view;
      var res := dev.g.reserved;
      for i := 0 to NumBits(dev.g)
        invariant num == CountUsed(bits, i)
      {
        var free := GetBit(i + res);
        if free == Some(false) {
          num := num + 1;
        }
      }
      assert bits[..NumBits(dev.g)] == bits;
      CountUsedIsCard(res, bits, NumBits(dev.g));
    }

    // ----- allocation -----

    /** One long of the search. */
    method CollectFree(longOff: nat, num: nat, before: seq<nat>) returns (result: seq<nat>)
      requires Valid() && longOff < NumLongs(dev.g) && (num == 0 || |before| < num)
      ensures result == Capped(before + WordFree(dev.g.reserved, view, longOff, MaxBits(view, longOff)), num)
    {
      var g := dev.g;
      var val := LongAt(data[..], longOff * 4);
      if val == 0 {
        ZeroWord(g, data[..], longOff, MaxBits(view, longOff));
        return before;
      }
      // last long has less bits
      LastLongBits(view, longOff);
      var maxBits := if longOff == NumLongs(g) - 1
        then (if NumBits(g) % 32 == 0 then 32 else NumBits(g) % 32) else 32;
      result := CollectBits(val, maxBits, g.reserved + longOff * 32, num, before, g, data[..], longOff);
    }

    /** The first `num` free blocks in the rotated order; None exactly when there are too few
        (or none is asked for: the length test comes after the first append). */
    method FindNFree(num: nat) returns (r: Option<seq<nat>>)
      requires Valid()
      modifies this`findStart
      ensures Valid()
      ensures r == FirstFree(dev.g.reserved, view, old(findStart), num)
      ensures r.None? ==> findStart == old(findStart)
      ensures r.None? <==> num == 0 || |Free()| < num
      ensures r.Some? ==> Seqs.Distinct(r.value) && |r.value| == num && Seqs.Elems(r.value) <= Free()
      ensures r.Some? ==>
        r.value[num - 1] >= dev.g.reserved && findStart == (r.value[num - 1] - dev.g.reserved) / 32
      ensures r.Some? ==> var s, cut := r.value, dev.g.reserved + 32 * old(findStart);
        forall i, j :: 0 <= i < j < num ==> if s[i] >= cut then s[j] < cut || s[i] < s[j] else s[i] < s[j] < cut
      ensures r.Some? ==> var s, cut := r.value, dev.g.reserved + 32 * old(findStart);
        forall b, f :: b in s && f in Free() && f !in s ==> if b >= cut then f < cut || b < f else b < f < cut
    {
      hide FirstFree, Scan, WordFree, FreeSet, Seqs.Elems, Seqs.Distinct;
      FirstFreeExact(dev.g.reserved, view, findStart, num);
      var g := dev.g;
      ScanEnds(g.reserved, view, findStart, num);
      ghost var bits, start := view, findStart;
      var result: seq<nat> := [];
      var longOff := findStart;
      for n := 0 to NumLongs(g)
        invariant findStart == start && longOff < NumLongs(g)
        invariant n < NumLongs(g) ==> longOff == Rotated(bits, start, n)
        invariant result == Scan(g.reserved, bits, start, n)
        invariant num == 0 || |result| < num
      {
        ghost var before := result;
        result := CollectFree(longOff, num, result);
        if |result| == num && num > 0 { LastFound(g.reserved, bits, longOff, before, num); }
        CappedScan(g.reserved, bits, start, n, num);
        ScanNext(g.reserved, bits, start, n);
        if |result| == num && num > 0 {
          FirstFreeOrder(g.reserved, bits, start, num);
          findStart := longOff;
          return Some(result);
        }
        longOff := longOff + 1;
        if longOff == NumLongs(g) { longOff := 0; }
      }
      r := None;
    }

    method AllocN(num: nat) returns (r: Option<seq<nat>>)
      requires Valid()
      modifies this`findStart, this`numUsed, this`dirty, this`view, data
      ensures Valid() && Drift() == old(Drift())
      ensures r.None? <==> num == 0 || |old(Free())| < num
      ensures r.None? ==> view == old(view) && findStart == old(findStart)
      ensures r.None? ==> dirty == old(dirty) && data[..] == old(data[..])
      ensures r.Some? ==> Seqs.Distinct(r.value) && |r.value| == num && Seqs.Elems(r.value) <= old(Free())
      ensures r.Some? ==> Free() == old(Free()) - Seqs.Elems(r.value) && dirty
      ensures r == FirstFree(dev.g.reserved, old(view), old(findStart), num)
      ensures r.Some? ==>
        r.value[num - 1] >= dev.g.reserved && findStart == (r.value[num - 1] - dev.g.reserved) / 32
    {
      r := FindNFree(num);
      if r.Some? {
        ClrAll(r.value);
      }
    }

    method ClrAll(blks: seq<nat>)
      requires Valid() && Seqs.Elems(blks) <= Free()
      modifies this`numUsed, this`dirty, this`view, data
      ensures Valid() && Drift() == old(Drift()) && Free() == old(Free()) - Seqs.Elems(blks)
      ensures |blks| > 0 ==> dirty
    {
      ghost var base, before := dev.g.reserved, Free();
      for i := 0 to |blks|
        invariant Valid() && Drift() == old(Drift())
        invariant Free() == before - Seqs.Elems(blks[..i])
        invariant i > 0 ==> dirty
      {
        assert blks[i] in Seqs.Elems(blks);
        MarkedSet(base, view, blks[i], false);
        Seqs.RemoveNext(before, blks, i);
        ClrBit(blks[i]);
      }
      assert blks[..|blks|] == blks;
    }

    method DeallocN(blks: seq<nat>)
      requires Valid()
      modifies this`numUsed, this`dirty, this`view, data
      ensures Valid() && Drift() == old(Drift())
      ensures Free() == old(Free()) + Seqs.Elems(blks) * Seqs.Range(dev.g.reserved, dev.g.numBlocks)
      ensures |blks| > 0 && blks[0] !in old(Free()) && dev.g.reserved <= blks[0] < dev.g.numBlocks ==> dirty
    {
      ghost var base, before, all := dev.g.reserved, Free(), Seqs.Range(dev.g.reserved, dev.g.numBlocks);
      assert |view| == dev.g.numBlocks - base && before + Seqs.Elems(blks[..0]) * all == before;
      hide Seqs.Range, Seqs.Elems, FreeSet, Bitmap.Valid, Bitmap.Drift;
      for i := 0 to |blks|
        invariant Valid() && Drift() == old(Drift())
        invariant |view| == dev.g.numBlocks - base && Free() == before + Seqs.Elems(blks[..i]) * all
        invariant i > 0 && blks[0] !in before && dev.g.reserved <= blks[0] < dev.g.numBlocks ==> dirty
      {
        FreedNext(base, view, before, blks, i);
        SetBit(blks[i]);
      }
      assert blks[..|blks|] == blks;
    }

    // ----- creation -----

    /** A fresh bitmap: everything free but the root, extension and bitmap blocks. */
    method Create(root: Device.Block) returns (r: Device.Block)
      requires Valid() && extBlks == [] && bitmapBlks == []
      requires root.Root? && root.bitmapPtrs == Zeros(ROOT_PTRS) && root.bitmapExt == 0
      requires rootNum + NumExt(dev.g) + NumBitmapBlks(dev.g) < dev.g.numBlocks
      modifies this
      ensures Valid() && fresh(data) && data.Length == DataBytes(dev.g) && findStart == old(findStart)
      ensures Free() == Seqs.Range(dev.g.reserved, dev.g.numBlocks) - SysBlocks(dev.g, rootNum)
      ensures Drift() == 0 && dirty
      ensures r.Root? && r == root.(bitmapPtrs := r.bitmapPtrs, bitmapExt := r.bitmapExt)
      ensures Linked(dev.g, r, extBlks, bitmapBlks) && Placed(dev.g, rootNum, extBlks, bitmapBlks)
      ensures forall j :: 0 <= j < |extBlks| ==> extBlks[j].num == rootNum + 1 + j
      ensures forall i :: 0 <= i < |bitmapBlks| ==> bitmapBlks[i] == rootNum + 1 + |extBlks| + i
      ensures forall b :: b in Free() <==>
        dev.g.reserved <= b < dev.g.numBlocks && !(rootNum <= b <= rootNum + |extBlks| + |bitmapBlks|)
    {
      AllocSysBlocks();
      r := LinkUp(root);
      Seqs.RangeElems(dev.g.reserved, dev.g.numBlocks);
      Seqs.RangeElems(rootNum, rootNum + 1 + NumExt(dev.g) + NumBitmapBlks(dev.g));
    }

    /** The block part of `create`. */
    method AllocSysBlocks()
      requires Valid() && extBlks == [] && bitmapBlks == []
      requires rootNum + NumExt(dev.g) + NumBitmapBlks(dev.g) < dev.g.numBlocks
      modifies this`data, this`view, this`numUsed, this`dirty, this`extBlks, this`bitmapBlks
      ensures Valid() && fresh(data) && data.Length == DataBytes(dev.g) && Drift() == 0 && dirty
      ensures Free() == Seqs.Range(dev.g.reserved, dev.g.numBlocks) - SysBlocks(dev.g, rootNum)
      ensures FreshExts(extBlks, rootNum + 1, NumExt(dev.g), ExtCap(dev.g))
      ensures |bitmapBlks| == NumBitmapBlks(dev.g)
      ensures forall j :: 0 <= j < |bitmapBlks| ==> bitmapBlks[j] == rootNum + 1 + NumExt(dev.g) + j
    {
      hide FreeSet, Seqs.Range, NumExt, NumBitmapBlks, DataBytes, Fits, Bits, CountUsed, FreshExts;
      var g := dev.g;
      ghost var off := rootNum - g.reserved;
      SetAllFree();
      ClrBit(rootNum);
      CreateExtBlks();
      CreateBitmapBlks();
      OnlyClearSet(g.reserved, view, off, off + 1 + NumExt(g) + NumBitmapBlks(g));
    }

    method CreateExtBlks()
      requires Valid() && extBlks == [] && dirty && rootNum + NumExt(dev.g) < dev.g.numBlocks
      requires OnlyClear(view, rootNum - dev.g.reserved, rootNum - dev.g.reserved + 1)
      modifies this`extBlks, this`numUsed, this`dirty, this`view, data
      ensures Valid() && dirty && Drift() == old(Drift())
      ensures FreshExts(extBlks, rootNum + 1, NumExt(dev.g), ExtCap(dev.g))
      ensures OnlyClear(view, rootNum - dev.g.reserved, rootNum - dev.g.reserved + 1 + NumExt(dev.g))
    {
      var g := dev.g;
      var pos := rootNum + 1;
      for i := 0 to NumExt(g)
        invariant Valid() && Drift() == old(Drift()) && dirty && pos == rootNum + 1 + i
        invariant FreshExts(extBlks, rootNum + 1, i, ExtCap(g))
        invariant OnlyClear(view, rootNum - g.reserved, pos - g.reserved)
      {
        ClrBit(pos);
        extBlks := extBlks + [ExtBlock(pos, Zeros(ExtCap(g)), 0)];
        pos := pos + 1;
      }
    }

    method CreateBitmapBlks()
      requires Valid() && bitmapBlks == [] && dirty
      requires rootNum + NumExt(dev.g) + NumBitmapBlks(dev.g) < dev.g.numBlocks
      requires OnlyClear(view, rootNum - dev.g.reserved, rootNum - dev.g.reserved + 1 + NumExt(dev.g))
      modifies this`bitmapBlks, this`numUsed, this`dirty, this`view, data
      ensures Valid() && dirty && Drift() == old(Drift())
      ensures |bitmapBlks| == NumBitmapBlks(dev.g)
      ensures forall j :: 0 <= j < |bitmapBlks| ==> bitmapBlks[j] == rootNum + 1 + NumExt(dev.g) + j
      ensures OnlyClear(view, rootNum - dev.g.reserved,
                        rootNum - dev.g.reserved + 1 + NumExt(dev.g) + NumBitmapBlks(dev.g))
    {
      hide NumExt, NumBitmapBlks, Bitmap.Drift, Bits, CountUsed;
      var g := dev.g;
      var pos := rootNum + 1 + NumExt(g);
      for i := 0 to NumBitmapBlks(g)
        invariant Valid() && Drift() == old(Drift()) && dirty && pos == rootNum + 1 + NumExt(g) + i
        invariant |bitmapBlks| == i
        invariant forall j :: 0 <= j < i ==> bitmapBlks[j] == rootNum + 1 + NumExt(g) + j
        invariant OnlyClear(view, rootNum - g.reserved, pos - g.reserved)
      {
        ClrBit(pos);
        bitmapBlks := bitmapBlks + [pos];
        pos := pos + 1;
      }
    }

    method SetAllFree()
      requires Valid()
      modifies this`data, this`numUsed, this`dirty, this`view
      ensures Valid() && fresh(data) && data.Length == DataBytes(dev.g) && dirty
      ensures OnlyClear(view, 0, 0) && Drift() == 0
    {
      DataFits(dev.g);
      numUsed := 0;
      dirty := true;
      data := new byte[DataBytes(dev.g)](_ => 0xFF);
      AllFree(dev.g, data[..]);
      view := Bits(dev.g, data[..]);
      CountAllFree(view, |view|);
    }

    /** The pointer part of `create`, on the tables of the extension blocks and of the root. */
    method LinkUp(root: Device.Block) returns (r: Device.Block)
      requires dev.g.Valid() && root.Root? && root.bitmapPtrs == Zeros(ROOT_PTRS) && root.bitmapExt == 0
      requires FreshExts(extBlks, rootNum + 1, NumExt(dev.g), ExtCap(dev.g))
      requires |bitmapBlks| == NumBitmapBlks(dev.g)
      modifies this`extBlks
      ensures r.Root? && r == root.(bitmapPtrs := r.bitmapPtrs, bitmapExt := r.bitmapExt)
      ensures |extBlks| == NumExt(dev.g)
      ensures forall j :: 0 <= j < |extBlks| ==> extBlks[j].num == rootNum + 1 + j
      ensures Linked(dev.g, r, extBlks, bitmapBlks)
    {
      ExtEnough(dev.g);
      var linked := LinkExts(extBlks);
      var ptrs, exts := FillPtrs(linked, bitmapBlks, ExtCap(dev.g), root.bitmapPtrs);
      r := root.(bitmapExt := if |exts| > 0 then exts[0].num else 0, bitmapPtrs := ptrs);
      ExtsLinkedSame(r.bitmapExt, linked, exts);
      extBlks := exts;
    }

    // ----- writing and reading back -----

    /** The listed bitmap blocks on the device hold `bytes`. */
    ghost predicate Stores(bytes: seq<byte>)
      reads this`bitmapBlks, dev
    {
      var n := |bitmapBlks|;
      AreBitmaps(dev.blks, bitmapBlks, n) && Collected(dev.blks, bitmapBlks, n) == bytes
    }

    /** Nothing to do unless something was changed.  The root block comes last; its name may be too long to
        write, when everything else is written already, or be cut to its field. */
    method Write(root: Device.Block) returns (ok: bool)
      requires Valid() && data.Length == Times(|bitmapBlks|, BlkBytes(dev.g))
      requires Apart(rootNum, extBlks, bitmapBlks) && ExtsFit(dev.g, extBlks)
      requires dev.Sound() && root.Root? && Device.NumbersFit(root, dev.g.blockLongs)
      modifies this`dirty, dev
      ensures !dirty && dev.Sound() && (!old(dirty) ==> dev.blks == old(dev.blks))
      ensures ok <==> !old(dirty) || |root.rootName| < 256
      ensures old(dirty) ==> ExtsOnDisk(dev.blks, extBlks)
      ensures old(dirty) ==> Stores(data[..])
      ensures old(dirty) && ok ==> rootNum in dev.blks && dev.blks[rootNum] == Device.Trimmed(root)
      ensures forall b :: b in old(dev.blks) && !InStore(b, rootNum, extBlks, bitmapBlks) ==>
        b in dev.blks && dev.blks[b] == old(dev.blks[b])
    {
      ok := true;
      if dirty {
        dirty := false;
        WriteExtBlks();
        WriteBitmapBlks();
        if |root.rootName| >= 256 { return false; }
        Device.TrimmedIff(root, dev.g.blockLongs);
        ghost var before := dev.blks;
        dev.WriteBlock(rootNum, Device.Trimmed(root));
        CollectedFrame(before, bitmapBlks, dev.blks, bitmapBlks, |bitmapBlks|);
      }
    }

    method WriteExtBlks()
      requires dev.Sound() && ExtsFit(dev.g, extBlks)
      requires forall i, j :: 0 <= i < j < |extBlks| ==> extBlks[i].num != extBlks[j].num
      modifies dev
      ensures dev.Sound() && ExtsOnDisk(dev.blks, extBlks)
      ensures forall b :: b in old(dev.blks) && !IsExt(b, extBlks) ==>
        b in dev.blks && dev.blks[b] == old(dev.blks[b])
    {
      hide ExtsOnDisk, IsExt, Device.DiskSound, Device.Storable;
      NoExts(dev.blks, extBlks);
      for i := 0 to |extBlks|
        invariant dev.Sound() && ExtsOnDisk(dev.blks, extBlks[..i])
        invariant forall b :: b in old(dev.blks) && !IsExt(b, extBlks) ==>
          b in dev.blks && dev.blks[b] == old(dev.blks[b])
      {
        ExtWritten(dev.blks, extBlks, i);
        ExtIs(extBlks, i);
        dev.WriteBlock(extBlks[i].num, Device.BitmapExt(extBlks[i].ptrs, extBlks[i].next));
      }
      assert extBlks[..|extBlks|] == extBlks;
    }

    method WriteBitmapBlks()
      requires Valid() && data.Length == Times(|bitmapBlks|, BlkBytes(dev.g)) && Seqs.Distinct(bitmapBlks)
        && dev.Sound()
      modifies dev
      ensures dev.Sound() && Stores(data[..])
      ensures forall b :: b in old(dev.blks) && b !in bitmapBlks ==>
        b in dev.blks && dev.blks[b] == old(dev.blks[b])
    {
      hide Device.DiskSound, Device.Storable, Device.KeyOk, Seqs.Distinct, AreBitmaps, Collected, Bits, Fits;
      ghost var bytes, bms := data[..], bitmapBlks;
      var size := BlkBytes(dev.g);
      NothingCollected(dev.blks, bms);
      var off := 0;
      for i := 0 to |bitmapBlks|
        invariant dev.Sound() && off == Times(i, size) <= |bytes|
        invariant AreBitmaps(dev.blks, bms, i) && Collected(dev.blks, bms, i) == bytes[..off]
        invariant forall b :: b in old(dev.blks) && b !in bms ==>
          b in dev.blks && dev.blks[b] == old(dev.blks[b])
      {
        TimesLe(i + 1, |bms|, size);
        CollectedWrite(dev.blks, bms, i, bytes[off..off + size]);
        PieceFits(dev.g, bitmapBlks[i], bytes[off..off + size]);
        assert bytes[..off] + bytes[off..off + size] == bytes[..off + size];
        assert data[off..off + size] == bytes[off..off + size];
        dev.WriteBlock(bitmapBlks[i], Device.Block.Bitmap(data[off..off + size]));
        off := off + size;
      }
      assert bytes[..off] == bytes;
    }

    /** `read` on a fresh bitmap object.  The extension chain `exts` must be finite for the walk to
        end; everything else is checked as the code checks it. */
    method Read(root: Device.Block, ghost exts: seq<ExtBlock>) returns (err: Option<BitmapError>)
      requires Valid() && root.Root?
      requires ExtsLinked(root.bitmapExt, exts) && ExtsOnDisk(dev.blks, exts)
      modifies this
      ensures Valid()
      ensures err == ReadError(dev.g, dev.blks, AllPtrs(root, exts))
      ensures err.None? ==> fresh(data) && extBlks == exts && bitmapBlks == AllPtrs(root, exts)
      ensures err.None? ==> Stores(data[..])
    {
      hide Used, ExtPtrs, Times, ExtsLinked, ExtsOnDisk, FreeSet, Bits;
      var g := dev.g;
      AreBitmapsConcat(dev.blks, Used(root.bitmapPtrs), ExtPtrs(exts, |exts|));
      var ok, nums, bits := ReadPtrs(dev.blks, root.bitmapPtrs, [], []);
      if !ok { return Some(InvalidBitmapBlock); }
      var found;
      ok, found, nums, bits := ReadExts(dev.blks, root.bitmapExt, nums, bits, exts);
      if !ok { return Some(InvalidBitmapBlock); }
      assert nums == AllPtrs(root, exts);
      if Times(|nums|, BlkBytes(g)) != |bits| { return Some(SizeMismatch); }
      if |nums| != NumBitmapBlks(g) { return Some(BlockCountMismatch); }
      extBlks, bitmapBlks := found, nums;
      Adopt(bits);
      err := None;
    }

    method Adopt(bits: seq<byte>)
      requires dev.g.Valid() && |bits| == DataBytes(dev.g)
      requires Valid()
      modifies this`data, this`view
      ensures Valid() && fresh(data) && data[..] == bits
    {
      DataFits(dev.g);
      data := new byte[|bits|](k requires 0 <= k < |bits| => bits[k]);
      assert data[..] == bits;
      view := Bits(dev.g, data[..]);
    }
  }

  /** Save and reload: the pointer tables made by `Create` lead a reader to exactly the bitmap blocks
      in order, so what `Write` stored passes every check of `Read` and comes back unchanged. */
  lemma ReloadsWhatWasStored(g: Device.Geometry, disk: map<nat, Device.Block>, rootNum: nat, root: Device.Block,
                             exts: seq<ExtBlock>, bms: seq<nat>, data: seq<byte>)
    requires g.Valid() && 0 < rootNum
    requires Linked(g, root, exts, bms) && Placed(g, rootNum, exts, bms)
    requires AreBitmaps(disk, bms, |bms|) && Collected(disk, bms, |bms|) == data && |data| == DataBytes(g)
    ensures AllPtrs(root, exts) == bms
    ensures ReadError(g, disk, AllPtrs(root, exts)) == None
  {
    LinkedListsAll(g, root, exts, bms);
  }
}
