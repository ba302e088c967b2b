/** Where the bitmap lives on the device: block counts, the pointer table spread over the root
    block and the chained extension blocks, and what a reader finds through it. */
module BitmapStore {
  import opened Bytes
  import Seqs
  import opened Device
  import BitmapWords

  /** In-memory `BitmapExtBlock`. */
  datatype ExtBlock = ExtBlock(num: nat, ptrs: seq<nat>, next: nat)

  const ROOT_PTRS := 25

  /** Bytes of bitmap in one bitmap block, pointers in one extension block. */
  function BlkBytes(g: Geometry): nat
    requires g.Valid()
  {
    g.BlockBytes() - 4
  }

  function ExtCap(g: Geometry): (c: nat)
    requires g.Valid()
    ensures c > 0
  {
    g.blockLongs - 1
  }

  function NumBitmapBlks(g: Geometry): nat
    requires g.Valid()
  {
    CeilDiv(BitmapWords.NumLongs(g), ExtCap(g))
  }

  function NumExt(g: Geometry): nat
    requires g.Valid()
  {
    CeilDiv(NumBitmapBlks(g) - ROOT_PTRS, ExtCap(g))
  }

  function DataBytes(g: Geometry): nat
    requires g.Valid()
  {
    Times(NumBitmapBlks(g), BlkBytes(g))
  }

  lemma DataFits(g: Geometry)
    requires g.Valid()
    ensures 4 * BitmapWords.NumLongs(g) <= DataBytes(g)
  {
    CeilDivBounds(BitmapWords.NumLongs(g), ExtCap(g));
    TimesIsProduct(NumBitmapBlks(g), BlkBytes(g));
    calc {
      DataBytes(g);
      NumBitmapBlks(g) * (4 * ExtCap(g));
      4 * (NumBitmapBlks(g) * ExtCap(g));
    }
  }

  lemma ExtEnough(g: Geometry)
    requires g.Valid()
    ensures NumBitmapBlks(g) <= ROOT_PTRS + Times(NumExt(g), ExtCap(g))
  {
    TimesIsProduct(NumExt(g), ExtCap(g));
    if NumBitmapBlks(g) > ROOT_PTRS {
      CeilDivBounds(NumBitmapBlks(g) - ROOT_PTRS, ExtCap(g));
    }
  }

  /** The counts by division: one bit per block after the reserved ones in longs of 32, the longs in blocks of
      one long less than the block, and the blocks beyond 25 in extension tables of the same size. */
  lemma CountsByDivision(g: Geometry)
    requires g.Valid()
    ensures var longs, cap := (g.numBlocks - g.reserved + 31) / 32, g.blockLongs - 1;
      && NumBitmapBlks(g) == (longs + cap - 1) / cap
      && NumExt(g) == if NumBitmapBlks(g) <= 25 then 0 else (NumBitmapBlks(g) - 25 + cap - 1) / cap
  {
    var cap := g.blockLongs - 1;
    CeilDivIsDivision(BitmapWords.NumBits(g), 32);
    CeilDivIsDivision(BitmapWords.NumLongs(g), cap);
    if NumBitmapBlks(g) > 25 { CeilDivIsDivision(NumBitmapBlks(g) - 25, cap); }
  }

  // ----- pointers -----

  function Zeros(n: nat): (s: seq<nat>)
    ensures |s| == n && forall i :: 0 <= i < n ==> s[i] == 0
  {
    seq(n, _ => 0)
  }

  function PtrAt(bms: seq<nat>, i: nat): nat { if i < |bms| then bms[i] else 0 }

  /** Slot `k` of extension block `j` holds bitmap block pointer number `Slot(cap, j, k)`. */
  function Slot(cap: nat, j: nat, k: nat): nat { ROOT_PTRS + Times(j, cap) + k }

  lemma SlotUnique(cap: nat, j: nat, k: nat, j': nat, k': nat)
    requires k < cap && k' < cap && Slot(cap, j, k) == Slot(cap, j', k')
    ensures j == j' && k == k'
  {
    if j < j' {
      TimesLe(j + 1, j', cap);
    } else if j' < j {
      TimesLe(j' + 1, j, cap);
    }
  }

  lemma SlotBelow(cap: nat, j: nat, k: nat, n: nat)
    requires k < cap && Slot(cap, j, k) < ROOT_PTRS + Times(n, cap)
    ensures j < n
  {
    if n <= j {
      TimesLe(n, j, cap);
    }
  }

  ghost predicate Linked(g: Geometry, root: Block, exts: seq<ExtBlock>, bms: seq<nat>)
    requires g.Valid()
  {
    && root.Root? && RootFilled(root.bitmapPtrs, bms, |bms|)
    && ExtsLinked(root.bitmapExt, exts)
    && Filled(exts, |exts|, ExtCap(g), bms, |bms|)
    && |bms| <= ROOT_PTRS + Times(|exts|, ExtCap(g))
  }

  /** `n` empty extension blocks in a row, as the first loop of `create` leaves them. */
  ghost predicate FreshExts(exts: seq<ExtBlock>, first: nat, n: nat, cap: nat) {
    |exts| == n && forall j :: 0 <= j < n ==> exts[j] == ExtBlock(first + j, Zeros(cap), 0)
  }

  function NextNum(exts: seq<ExtBlock>, j: nat): nat {
    if j + 1 < |exts| then exts[j + 1].num else 0
  }

  ghost predicate ExtsLinked(first: nat, exts: seq<ExtBlock>) {
    && first == (if |exts| > 0 then exts[0].num else 0)
    && (forall j :: 0 <= j < |exts| ==> exts[j].num != 0)
    && (forall j :: 0 <= j < |exts| ==> exts[j].next == NextNum(exts, j))
  }

  /** The blocks follow the root block: first the extension blocks, then the bitmap blocks. */
  ghost predicate Placed(g: Geometry, rootNum: nat, exts: seq<ExtBlock>, bms: seq<nat>)
    requires g.Valid()
  {
    && |exts| == NumExt(g) && |bms| == NumBitmapBlks(g)
    && (forall j :: 0 <= j < |exts| ==> exts[j].num == rootNum + 1 + j)
    && (forall i :: 0 <= i < |bms| ==> bms[i] == rootNum + 1 + |exts| + i)
  }

  ghost function SysBlocks(g: Geometry, rootNum: nat): set<nat>
    requires g.Valid()
  {
    Seqs.Range(rootNum, rootNum + 1 + NumExt(g) + NumBitmapBlks(g))
  }

  /** The first `n` extension tables when the first `i` bitmap blocks are entered. */
  ghost predicate Filled(exts: seq<ExtBlock>, n: nat, cap: nat, bms: seq<nat>, i: nat)
    requires i <= |bms| && n <= |exts|
  {
    n > 0 ==> Filled(exts, n - 1, cap, bms, i) && TableFilled(exts[n - 1].ptrs, cap, bms, i, n - 1)
  }

  ghost predicate TableFilled(ptrs: seq<nat>, cap: nat, bms: seq<nat>, i: nat, j: nat)
    requires i <= |bms|
  {
    |ptrs| == cap && forall k :: 0 <= k < cap ==> ptrs[k] == PtrAt(bms[..i], Slot(cap, j, k))
  }

  lemma {:induction false} FilledAt(exts: seq<ExtBlock>, n: nat, cap: nat, bms: seq<nat>, i: nat, j: nat)
    requires i <= |bms| && j < n <= |exts| && Filled(exts, n, cap, bms, i)
    ensures TableFilled(exts[j].ptrs, cap, bms, i, j)
  {
    if j < n - 1 {
      FilledAt(exts, n - 1, cap, bms, i, j);
    }
  }

  lemma {:induction false} ZerosFilled(exts: seq<ExtBlock>, n: nat, cap: nat, bms: seq<nat>)
    requires n <= |exts| && forall j :: 0 <= j < |exts| ==> exts[j].ptrs == Zeros(cap)
    ensures Filled(exts, n, cap, bms, 0)
  {
    if n > 0 {
      ZerosFilled(exts, n - 1, cap, bms);
    }
  }

  ghost predicate RootFilled(ptrs: seq<nat>, bms: seq<nat>, i: nat)
    requires i <= |bms|
  {
    |ptrs| == ROOT_PTRS && forall k :: 0 <= k < ROOT_PTRS ==> ptrs[k] == PtrAt(bms[..i], k)
  }

  lemma RootFills(ptrs: seq<nat>, bms: seq<nat>, i: nat)
    requires i < |bms| && RootFilled(ptrs, bms, i)
    ensures RootFilled(if i < ROOT_PTRS then ptrs[i := bms[i]] else ptrs, bms, i + 1)
  {
  }

  function Enter(exts: seq<ExtBlock>, idx: nat, pos: nat, blkNum: nat): (r: seq<ExtBlock>)
    requires idx < |exts| && pos < |exts[idx].ptrs|
  {
    exts[idx := exts[idx].(ptrs := exts[idx].ptrs[pos := blkNum])]
  }

  lemma {:induction false} EnterFills(exts: seq<ExtBlock>, n: nat, cap: nat, bms: seq<nat>,
                                      i: nat, idx: nat, pos: nat)
    requires i < |bms| && n <= |exts| && Filled(exts, n, cap, bms, i)
    requires idx < |exts| && |exts[idx].ptrs| == cap && pos < cap && i == Slot(cap, idx, pos)
    ensures Filled(Enter(exts, idx, pos, bms[i]), n, cap, bms, i + 1)
  {
    if n > 0 {
      EnterFills(exts, n - 1, cap, bms, i, idx, pos);
      TableEnter(exts[n - 1].ptrs, cap, bms, i, n - 1, idx, pos);
    }
  }

  lemma TableEnter(ptrs: seq<nat>, cap: nat, bms: seq<nat>, i: nat, j: nat, idx: nat, pos: nat)
    requires i < |bms| && TableFilled(ptrs, cap, bms, i, j)
    requires pos < cap && i == Slot(cap, idx, pos)
    ensures TableFilled(if j == idx then ptrs[pos := bms[i]] else ptrs, cap, bms, i + 1, j)
  {
    forall k | 0 <= k < cap && Slot(cap, j, k) == i ensures j == idx && k == pos {
      SlotUnique(cap, j, k, idx, pos);
    }
  }

  /** Pointers up to number 25 go to the root block and leave the extension tables empty. */
  lemma {:induction false} RootSlotsFill(exts: seq<ExtBlock>, n: nat, cap: nat, bms: seq<nat>, i: nat)
    requires i < |bms| && i < ROOT_PTRS && n <= |exts| && Filled(exts, n, cap, bms, i)
    ensures Filled(exts, n, cap, bms, i + 1)
  {
    if n > 0 {
      RootSlotsFill(exts, n - 1, cap, bms, i);
    }
  }

  /** The tables entry by entry: the first 25 bitmap blocks in the root block, the following ones in the extension
      blocks, each full but the last, zeros behind them; every extension block names the next. */
  lemma TablesExact(g: Geometry, root: Block, exts: seq<ExtBlock>, bms: seq<nat>)
    requires g.Valid() && Linked(g, root, exts, bms)
    ensures root.Root? && |root.bitmapPtrs| == 25
    ensures forall k :: 0 <= k < 25 ==> root.bitmapPtrs[k] == if k < |bms| then bms[k] else 0
    ensures root.bitmapExt == if exts == [] then 0 else exts[0].num
    ensures forall j :: 0 <= j < |exts| ==> TableExact(g, exts, bms, j)
  {
    assert bms[..|bms|] == bms;
    forall j | 0 <= j < |exts| ensures TableExact(g, exts, bms, j) {
      FilledAt(exts, |exts|, ExtCap(g), bms, |bms|, j);
      TimesIsProduct(j, ExtCap(g));
      forall k | 0 <= k < ExtCap(g)
        ensures var slot := 25 + j * ExtCap(g) + k; exts[j].ptrs[k] == if slot < |bms| then bms[slot] else 0
      {
        assert exts[j].ptrs[k] == PtrAt(bms[..|bms|], Slot(ExtCap(g), j, k));
      }
    }
  }

  ghost predicate TableExact(g: Geometry, exts: seq<ExtBlock>, bms: seq<nat>, j: nat)
    requires g.Valid() && j < |exts|
  {
    var first := 25 + j * (g.blockLongs - 1);
    && |exts[j].ptrs| == g.blockLongs - 1
    && (forall k :: 0 <= k < |exts[j].ptrs| ==> exts[j].ptrs[k] == if first + k < |bms| then bms[first + k] else 0)
    && exts[j].next == if j + 1 < |exts| then exts[j + 1].num else 0
  }

  // ----- on the device -----

  ghost predicate ExtsOnDisk(disk: map<nat, Block>, exts: seq<ExtBlock>) {
    forall j :: 0 <= j < |exts| ==>
      exts[j].num in disk && disk[exts[j].num] == BitmapExt(exts[j].ptrs, exts[j].next)
  }

  lemma NoExts(disk: map<nat, Block>, exts: seq<ExtBlock>)
    ensures ExtsOnDisk(disk, exts[..0])
  {
  }

  lemma ExtIs(exts: seq<ExtBlock>, i: nat)
    requires i < |exts|
    ensures IsExt(exts[i].num, exts)
  {
  }

  lemma ExtWritten(disk: map<nat, Block>, exts: seq<ExtBlock>, i: nat)
    requires i < |exts| && ExtsOnDisk(disk, exts[..i]) && forall j :: 0 <= j < i ==> exts[j].num != exts[i].num
    ensures ExtsOnDisk(disk[exts[i].num := BitmapExt(exts[i].ptrs, exts[i].next)], exts[..i + 1])
  {
  }

  /** The extension blocks can be written. */
  ghost predicate ExtsFit(g: Geometry, exts: seq<ExtBlock>) {
    forall j :: 0 <= j < |exts| ==> Storable(BitmapExt(exts[j].ptrs, exts[j].next), g.blockLongs)
  }

  /** The pointer tables of a new bitmap fit their blocks. */
  lemma LinkedFits(g: Geometry, rootNum: nat, root: Block, exts: seq<ExtBlock>, bms: seq<nat>)
    requires g.Valid() && Linked(g, root, exts, bms) && Placed(g, rootNum, exts, bms)
    requires rootNum + NumExt(g) + NumBitmapBlks(g) < g.numBlocks
    ensures ExtsFit(g, exts) && |root.bitmapPtrs| == ROOT_PTRS && AreLongs(root.bitmapPtrs)
    ensures root.bitmapExt < 0x1_0000_0000
  {
    hide NumExt, NumBitmapBlks, Filled, Slot, Times;
    forall j | 0 <= j < |exts| ensures Storable(BitmapExt(exts[j].ptrs, exts[j].next), g.blockLongs) {
      FilledAt(exts, |exts|, ExtCap(g), bms, |bms|, j);
      assert forall k :: 0 <= k < |exts[j].ptrs| ==> exts[j].ptrs[k] == PtrAt(bms[..|bms|], Slot(ExtCap(g), j, k));
    }
  }

  // ----- what a reader finds -----

  /** The pointers before the first zero. */
  function Used(ptrs: seq<nat>): (r: seq<nat>)
    ensures |r| <= |ptrs|
  {
    if ptrs == [] || ptrs[0] == 0 then [] else [ptrs[0]] + Used(ptrs[1..])
  }

  lemma {:induction false} UsedIsPrefix(ptrs: seq<nat>)
    ensures Used(ptrs) <= ptrs && (forall i :: 0 <= i < |Used(ptrs)| ==> ptrs[i] != 0)
    ensures Used(ptrs) == ptrs || ptrs[|Used(ptrs)|] == 0
  {
    if ptrs != [] && ptrs[0] != 0 {
      UsedIsPrefix(ptrs[1..]);
    }
  }

  /** The pointers found in the first `n` extension blocks. */
  function ExtPtrs(exts: seq<ExtBlock>, n: nat): seq<nat>
    requires n <= |exts|
  {
    if n == 0 then [] else ExtPtrs(exts, n - 1) + Used(exts[n - 1].ptrs)
  }

  function AllPtrs(root: Block, exts: seq<ExtBlock>): seq<nat>
    requires root.Root?
  {
    Used(root.bitmapPtrs) + ExtPtrs(exts, |exts|)
  }

  predicate AreBitmaps(disk: map<nat, Block>, nums: seq<nat>, n: nat)
    requires n <= |nums|
  {
    n > 0 ==> AreBitmaps(disk, nums, n - 1) && nums[n - 1] in disk && disk[nums[n - 1]].Bitmap?
  }

  /** The bitmap bytes of the first `n` listed blocks. */
  function Collected(disk: map<nat, Block>, nums: seq<nat>, n: nat): seq<byte>
    requires n <= |nums| && AreBitmaps(disk, nums, n)
  {
    if n == 0 then [] else Collected(disk, nums, n - 1) + disk[nums[n - 1]].bits
  }

  /** Block `i` of the list holds piece `i` of the bitmap. */
  lemma {:induction false} CollectedPiece(disk: map<nat, Block>, nums: seq<nat>, n: nat, size: nat, i: nat)
    requires i < n <= |nums| && AreBitmaps(disk, nums, n)
    requires forall j :: 0 <= j < n && nums[j] in disk && disk[nums[j]].Bitmap? ==> |disk[nums[j]].bits| == size
    ensures nums[i] in disk && disk[nums[i]].Bitmap? && i * size + size <= |Collected(disk, nums, n)| == n * size
    ensures disk[nums[i]].bits == Collected(disk, nums, n)[i * size..i * size + size]
  {
    hide Collected;
    CollectedNext(disk, nums, n);
    CollectedSize(disk, nums, n - 1, size);
    assert n * size == (n - 1) * size + size;
    if i < n - 1 {
      CollectedPiece(disk, nums, n - 1, size, i);
      InFront(Collected(disk, nums, n - 1), disk[nums[n - 1]].bits, i * size, i * size + size);
    }
  }

  lemma CollectedNext(disk: map<nat, Block>, nums: seq<nat>, n: nat)
    requires 0 < n <= |nums| && AreBitmaps(disk, nums, n)
    ensures AreBitmaps(disk, nums, n - 1) && nums[n - 1] in disk && disk[nums[n - 1]].Bitmap?
    ensures Collected(disk, nums, n) == Collected(disk, nums, n - 1) + disk[nums[n - 1]].bits
  {
  }

  lemma InFront<T>(a: seq<T>, b: seq<T>, lo: nat, hi: nat)
    requires lo <= hi <= |a|
    ensures (a + b)[lo..hi] == a[lo..hi]
  {
  }

  lemma {:induction false} CollectedSize(disk: map<nat, Block>, nums: seq<nat>, n: nat, size: nat)
    requires n <= |nums| && AreBitmaps(disk, nums, n)
    requires forall j :: 0 <= j < n && nums[j] in disk && disk[nums[j]].Bitmap? ==> |disk[nums[j]].bits| == size
    ensures |Collected(disk, nums, n)| == n * size
  {
    if n > 0 {
      CollectedSize(disk, nums, n - 1, size);
      assert n * size == (n - 1) * size + size;
    }
  }

  lemma {:induction false} UsedOfPrefix(ptrs: seq<nat>, n: nat)
    requires n <= |ptrs| && (n == |ptrs| || ptrs[n] == 0)
    requires forall i :: 0 <= i < n ==> ptrs[i] != 0
    ensures Used(ptrs) == ptrs[..n]
  {
    if n > 0 {
      UsedOfPrefix(ptrs[1..], n - 1);
    }
  }

  /** How many of the bitmap blocks are listed before extension block `j`. */
  function TableStart(bms: seq<nat>, cap: nat, j: nat): (n: nat)
    ensures n <= |bms|
  {
    if Slot(cap, j, 0) < |bms| then Slot(cap, j, 0) else |bms|
  }

  lemma ExtsLinkedSame(first: nat, exts: seq<ExtBlock>, r: seq<ExtBlock>)
    requires ExtsLinked(first, exts) && |r| == |exts|
    requires forall j :: 0 <= j < |r| ==> r[j].num == exts[j].num
    requires forall j :: 0 <= j < |r| ==> r[j].next == exts[j].next
    ensures ExtsLinked(first, r)
  {
    forall j | 0 <= j < |r| ensures r[j].next == NextNum(r, j) {
      assert exts[j].next == NextNum(exts, j) == NextNum(r, j);
    }
  }

  lemma ExtLists(g: Geometry, root: Block, exts: seq<ExtBlock>, bms: seq<nat>, j: nat)
    requires g.Valid() && Linked(g, root, exts, bms) && Seqs.NoZero(bms) && j < |exts|
    ensures TableStart(bms, ExtCap(g), j) <= TableStart(bms, ExtCap(g), j + 1)
    ensures Used(exts[j].ptrs) == bms[TableStart(bms, ExtCap(g), j)..TableStart(bms, ExtCap(g), j + 1)]
  {
    var cap, ptrs := ExtCap(g), exts[j].ptrs;
    assert Slot(cap, j + 1, 0) == Slot(cap, j, 0) + cap;
    var lo, hi := TableStart(bms, cap, j), TableStart(bms, cap, j + 1);
    assert bms[..|bms|] == bms;
    FilledAt(exts, |exts|, cap, bms, |bms|, j);
    forall k | 0 <= k < cap ensures ptrs[k] == PtrAt(bms, Slot(cap, j, 0) + k) {
      assert Slot(cap, j, k) == Slot(cap, j, 0) + k;
    }
    assert ptrs[..hi - lo] == bms[lo..hi];
    UsedOfPrefix(ptrs, hi - lo);
  }

  lemma {:induction false} ExtsListRest(g: Geometry, root: Block, exts: seq<ExtBlock>, bms: seq<nat>, m: nat)
    requires g.Valid() && Linked(g, root, exts, bms) && Seqs.NoZero(bms) && m <= |exts|
    ensures TableStart(bms, ExtCap(g), 0) <= TableStart(bms, ExtCap(g), m)
    ensures ExtPtrs(exts, m) == bms[TableStart(bms, ExtCap(g), 0)..TableStart(bms, ExtCap(g), m)]
  {
    hide Linked, Seqs.NoZero, Used, ExtCap, Slot;
    if m > 0 {
      ExtsListRest(g, root, exts, bms, m - 1);
      ExtLists(g, root, exts, bms, m - 1);
      Seqs.Glue(bms, TableStart(bms, ExtCap(g), 0), TableStart(bms, ExtCap(g), m - 1), TableStart(bms, ExtCap(g), m));
    }
  }

  /** The tables written by `create` list exactly the bitmap blocks, in order. */
  lemma LinkedListsAll(g: Geometry, root: Block, exts: seq<ExtBlock>, bms: seq<nat>)
    requires g.Valid() && Linked(g, root, exts, bms) && Seqs.NoZero(bms)
    ensures AllPtrs(root, exts) == bms
  {
    var n := TableStart(bms, ExtCap(g), 0);
    assert bms[..|bms|] == bms;
    assert root.bitmapPtrs[..n] == bms[..n];
    UsedOfPrefix(root.bitmapPtrs, n);
    ExtsListRest(g, root, exts, bms, |exts|);
  }

  /** Lists that agree, on disks that agree on the listed blocks, collect the same bytes. */
  lemma {:induction false} CollectedFrame(disk: map<nat, Block>, nums: seq<nat>,
                                          disk': map<nat, Block>, nums': seq<nat>, n: nat)
    requires n <= |nums| && n <= |nums'| && AreBitmaps(disk, nums, n)
    requires forall i :: 0 <= i < n ==> nums'[i] == nums[i]
    requires forall i :: 0 <= i < n && nums[i] in disk ==> nums[i] in disk' && disk'[nums[i]] == disk[nums[i]]
    ensures AreBitmaps(disk', nums', n) && Collected(disk', nums', n) == Collected(disk, nums, n)
  {
    if n > 0 {
      CollectedFrame(disk, nums, disk', nums', n - 1);
    }
  }

  lemma NothingCollected(disk: map<nat, Block>, bms: seq<nat>)
    ensures AreBitmaps(disk, bms, 0) && Collected(disk, bms, 0) == []
  {
  }

  lemma PieceFits(g: Geometry, num: nat, bits: seq<byte>)
    requires g.Valid() && |bits| == BlkBytes(g)
    ensures Storable(Device.Block.Bitmap(bits), g.blockLongs) && KeyOk(num, Device.Block.Bitmap(bits))
  {
  }

  /** Writing the next bitmap block. */
  lemma CollectedWrite(disk: map<nat, Block>, bms: seq<nat>, i: nat, bits: seq<byte>)
    requires i < |bms| && Seqs.Distinct(bms) && AreBitmaps(disk, bms, i)
    ensures var disk' := disk[bms[i] := Device.Block.Bitmap(bits)];
      AreBitmaps(disk', bms, i + 1) && Collected(disk', bms, i + 1) == Collected(disk, bms, i) + bits
  {
    CollectedFrame(disk, bms, disk[bms[i] := Device.Block.Bitmap(bits)], bms, i);
  }

  /** Listing one more bitmap block. */
  lemma CollectedAppend(disk: map<nat, Block>, nums: seq<nat>, b: nat)
    requires AreBitmaps(disk, nums, |nums|) && b in disk && disk[b].Bitmap?
    ensures AreBitmaps(disk, nums + [b], |nums| + 1)
    ensures Collected(disk, nums + [b], |nums| + 1) == Collected(disk, nums, |nums|) + disk[b].bits
  {
    CollectedFrame(disk, nums, disk, nums + [b], |nums|);
  }

  /** No block is used twice. */
  ghost predicate Apart(rootNum: nat, exts: seq<ExtBlock>, bms: seq<nat>) {
    && Seqs.Distinct(bms)
    && (forall i, j :: 0 <= i < j < |exts| ==> exts[i].num != exts[j].num)
    && (forall j :: 0 <= j < |exts| ==> exts[j].num != rootNum)
    && (forall i :: 0 <= i < |bms| ==> bms[i] != rootNum)
    && (forall i, j :: 0 <= i < |bms| && 0 <= j < |exts| ==> bms[i] != exts[j].num)
  }

  ghost predicate InStore(b: nat, rootNum: nat, exts: seq<ExtBlock>, bms: seq<nat>) {
    b == rootNum || IsExt(b, exts) || b in bms
  }

  ghost predicate IsExt(b: nat, exts: seq<ExtBlock>) {
    exists j :: 0 <= j < |exts| && exts[j].num == b
  }

  datatype BitmapError = InvalidBitmapBlock | SizeMismatch | BlockCountMismatch

  /** The outcome of `ADFSBitmap.read` for the bitmap blocks the pointers list. */
  function ReadError(g: Geometry, disk: map<nat, Block>, nums: seq<nat>): Option<BitmapError>
    requires g.Valid()
  {
    if !AreBitmaps(disk, nums, |nums|) then Some(InvalidBitmapBlock)
    else if Times(|nums|, BlkBytes(g)) != |Collected(disk, nums, |nums|)| then Some(SizeMismatch)
    else if |nums| != NumBitmapBlks(g) then Some(BlockCountMismatch)
    else None
  }

  /** Which check fails first: a listed block that is no bitmap block, then the bytes, then the number of blocks. */
  lemma ReadErrorExact(g: Geometry, disk: map<nat, Block>, nums: seq<nat>)
    requires g.Valid()
    ensures ReadError(g, disk, nums) == Some(InvalidBitmapBlock)
      <==> exists i :: 0 <= i < |nums| && !(nums[i] in disk && disk[nums[i]].Bitmap?)
    ensures ReadError(g, disk, nums) == Some(SizeMismatch) <==>
      AreBitmaps(disk, nums, |nums|) && |Collected(disk, nums, |nums|)| != |nums| * (4 * g.blockLongs - 4)
    ensures ReadError(g, disk, nums) == None <==>
      && AreBitmaps(disk, nums, |nums|) && |Collected(disk, nums, |nums|)| == |nums| * (4 * g.blockLongs - 4)
      && |nums| == NumBitmapBlks(g)
  {
    hide NumBitmapBlks, Collected;
    AreBitmapsIff(disk, nums, |nums|);
    TimesIsProduct(|nums|, BlkBytes(g));
  }

  lemma {:induction false} AreBitmapsIff(disk: map<nat, Block>, nums: seq<nat>, n: nat)
    requires n <= |nums|
    ensures AreBitmaps(disk, nums, n) <==> forall i :: 0 <= i < n ==> nums[i] in disk && disk[nums[i]].Bitmap?
  {
    if n > 0 { AreBitmapsIff(disk, nums, n - 1); }
  }

  lemma AreBitmapsConcat(disk: map<nat, Block>, s: seq<nat>, t: seq<nat>)
    ensures AreBitmaps(disk, s + t, |s + t|) <==> AreBitmaps(disk, s, |s|) && AreBitmaps(disk, t, |t|)
  {
    AreBitmapsPrefix(disk, s, t, |s|);
    AreBitmapsSuffix(disk, s, t, |t|);
  }

  lemma {:induction false} AreBitmapsPrefix(disk: map<nat, Block>, s: seq<nat>, t: seq<nat>, n: nat)
    requires n <= |s|
    ensures AreBitmaps(disk, s + t, n) <==> AreBitmaps(disk, s, n)
  {
    if n > 0 {
      AreBitmapsPrefix(disk, s, t, n - 1);
    }
  }

  lemma {:induction false} AreBitmapsSuffix(disk: map<nat, Block>, s: seq<nat>, t: seq<nat>, n: nat)
    requires n <= |t|
    ensures AreBitmaps(disk, s + t, |s| + n) <==> AreBitmaps(disk, s + t, |s|) && AreBitmaps(disk, t, n)
  {
    if n > 0 {
      AreBitmapsSuffix(disk, s, t, n - 1);
    }
  }

  lemma {:induction false} BadEntry(disk: map<nat, Block>, s: seq<nat>, i: nat, n: nat)
    requires i < n <= |s| && !(s[i] in disk && disk[s[i]].Bitmap?)
    ensures !AreBitmaps(disk, s, n)
  {
    if i < n - 1 {
      BadEntry(disk, s, i, n - 1);
    }
  }

  lemma {:induction false} ExtPtrsBad(disk: map<nat, Block>, exts: seq<ExtBlock>, k: nat, n: nat)
    requires k < n <= |exts| && !AreBitmaps(disk, Used(exts[k].ptrs), |Used(exts[k].ptrs)|)
    ensures !AreBitmaps(disk, ExtPtrs(exts, n), |ExtPtrs(exts, n)|)
  {
    AreBitmapsConcat(disk, ExtPtrs(exts, n - 1), Used(exts[n - 1].ptrs));
    if k < n - 1 {
      ExtPtrsBad(disk, exts, k, n - 1);
    }
  }

  // ----- the loops of `create` and `read` -----

  /** Chain the extension blocks: `set pointers to ext blocks`. */
  method LinkExts(exts: seq<ExtBlock>) returns (r: seq<ExtBlock>)
    requires forall j :: 0 <= j < |exts| ==> exts[j].num != 0 && exts[j].next == 0
    ensures |r| == |exts|
    ensures forall j :: 0 <= j < |r| ==> r[j].num == exts[j].num && r[j].ptrs == exts[j].ptrs
    ensures ExtsLinked(if |r| > 0 then r[0].num else 0, r)
  {
    r := exts;
    if |r| > 0 {
      for i := 0 to |r| - 1
        invariant |r| == |exts|
        invariant forall j :: 0 <= j < |r| ==> r[j].num == exts[j].num && r[j].ptrs == exts[j].ptrs
        invariant forall j :: 0 <= j < i ==> r[j].next == exts[j + 1].num
        invariant r[|r| - 1].next == 0
      {
        r := r[i := r[i].(next := r[i + 1].num)];
      }
    }
  }

  /** Enter the bitmap blocks: `set pointers to bitmap blocks`. */
  method FillPtrs(exts: seq<ExtBlock>, bms: seq<nat>, cap: nat, rootPtrs: seq<nat>)
    returns (ptrs: seq<nat>, r: seq<ExtBlock>)
    requires cap > 0 && rootPtrs == Zeros(ROOT_PTRS) && |bms| <= ROOT_PTRS + Times(|exts|, cap)
    requires forall j :: 0 <= j < |exts| ==> exts[j].ptrs == Zeros(cap)
    ensures RootFilled(ptrs, bms, |bms|) && |r| == |exts| && Filled(r, |r|, cap, bms, |bms|)
    ensures forall j :: 0 <= j < |r| ==> r[j].num == exts[j].num
    ensures forall j :: 0 <= j < |r| ==> r[j].next == exts[j].next
  {
    ptrs, r := rootPtrs, exts;
    ZerosFilled(r, |r|, cap, bms);
    var curIdx, curPos := 0, 0;
    for i := 0 to |bms|
      invariant RootFilled(ptrs, bms, i) && |r| == |exts| && Filled(r, |r|, cap, bms, i)
      invariant forall j :: 0 <= j < |r| ==> r[j].num == exts[j].num && r[j].next == exts[j].next
      invariant 0 <= curPos < cap && 0 <= curIdx
      invariant if i <= ROOT_PTRS then curIdx == curPos == 0 else i == Slot(cap, curIdx, curPos)
    {
      var blkNum := bms[i];
      RootFills(ptrs, bms, i);
      if i < ROOT_PTRS {
        ptrs := ptrs[i := blkNum];
        RootSlotsFill(r, |r|, cap, bms, i);
      } else {
        SlotBelow(cap, curIdx, curPos, |r|);
        FilledAt(r, |r|, cap, bms, i, curIdx);
        EnterFills(r, |r|, cap, bms, i, curIdx, curPos);
        r := Enter(r, curIdx, curPos, blkNum);
        curPos := curPos + 1;
        if curPos == cap {
          assert Slot(cap, curIdx, cap) == Slot(cap, curIdx + 1, 0);
          curPos := 0;
          curIdx := curIdx + 1;
        }
      }
    }
  }

  /** The pointer loop of `read`: collect the bitmap blocks up to the first zero pointer. */
  method ReadPtrs(disk: map<nat, Block>, ptrs: seq<nat>, nums: seq<nat>, bits: seq<byte>)
    returns (ok: bool, nums': seq<nat>, bits': seq<byte>)
    requires AreBitmaps(disk, nums, |nums|) && bits == Collected(disk, nums, |nums|)
    ensures ok <==> AreBitmaps(disk, Used(ptrs), |Used(ptrs)|)
    ensures ok ==> nums' == nums + Used(ptrs)
    ensures ok ==> AreBitmaps(disk, nums', |nums'|) && bits' == Collected(disk, nums', |nums'|)
  {
    hide Used, Collected;
    nums', bits' := nums, bits;
    ghost var used := Used(ptrs);
    UsedIsPrefix(ptrs);
    var i := 0;
    while i < |ptrs| && ptrs[i] != 0
      invariant i <= |used| && nums' == nums + used[..i] && AreBitmaps(disk, used, i)
      invariant AreBitmaps(disk, nums', |nums'|) && bits' == Collected(disk, nums', |nums'|)
    {
      var blk := ptrs[i];
      assert i < |used| && used[i] == blk;
      if blk !in disk || !disk[blk].Bitmap? {
        BadEntry(disk, used, i, |used|);
        return false, nums', bits';
      }
      CollectedAppend(disk, nums', blk);
      assert nums + used[..i + 1] == nums + used[..i] + [blk];
      nums' := nums' + [blk];
      bits' := bits' + disk[blk].bits;
      i := i + 1;
    }
    ok := true;
    assert used[..i] == used;
  }

  lemma FirstExt(first: nat, exts: seq<ExtBlock>)
    requires ExtsLinked(first, exts)
    ensures if |exts| > 0 then first == exts[0].num != 0 else first == 0
  {
  }

  lemma ExtAt(disk: map<nat, Block>, first: nat, exts: seq<ExtBlock>, j: nat)
    requires ExtsLinked(first, exts) && ExtsOnDisk(disk, exts) && j < |exts|
    ensures exts[j].next == NextNum(exts, j) && (j + 1 < |exts| ==> exts[j + 1].num != 0)
    ensures exts[j].num in disk && disk[exts[j].num] == BitmapExt(exts[j].ptrs, exts[j].next)
  {
  }

  /** The extension block loop of `read`. */
  method ReadExts(disk: map<nat, Block>, first: nat, nums: seq<nat>, bits: seq<byte>, ghost exts: seq<ExtBlock>)
    returns (ok: bool, found: seq<ExtBlock>, nums': seq<nat>, bits': seq<byte>)
    requires ExtsLinked(first, exts) && ExtsOnDisk(disk, exts)
    requires AreBitmaps(disk, nums, |nums|) && bits == Collected(disk, nums, |nums|)
    ensures ok <==> AreBitmaps(disk, ExtPtrs(exts, |exts|), |ExtPtrs(exts, |exts|)|)
    ensures ok ==> found == exts && nums' == nums + ExtPtrs(exts, |exts|)
    ensures ok ==> AreBitmaps(disk, nums', |nums'|) && bits' == Collected(disk, nums', |nums'|)
  {
    hide Collected, Used, ExtsLinked, ExtsOnDisk;
    FirstExt(first, exts);
    ok, found, nums', bits' := true, [], nums, bits;
    var ext := first;
    while ext != 0
      invariant found <= exts
      invariant ext == if |found| < |exts| then exts[|found|].num else 0
      invariant ext == 0 ==> |found| == |exts|
      invariant nums' == nums + ExtPtrs(exts, |found|)
      invariant AreBitmaps(disk, ExtPtrs(exts, |found|), |ExtPtrs(exts, |found|)|)
      invariant AreBitmaps(disk, nums', |nums'|) && bits' == Collected(disk, nums', |nums'|)
      decreases |exts| - |found|
    {
      ExtAt(disk, first, exts, |found|);
      var e := ExtBlock(ext, disk[ext].ptrs, disk[ext].next);
      assert e == exts[|found|];
      ghost var before, here := ExtPtrs(exts, |found|), Used(e.ptrs);
      assert nums + (before + here) == (nums + before) + here;
      AreBitmapsConcat(disk, before, here);
      ok, nums', bits' := ReadPtrs(disk, e.ptrs, nums', bits');
      if !ok {
        ExtPtrsBad(disk, exts, |found|, |exts|);
        return;
      }
      found := found + [e];
      ext := e.next;
    }
  }
}
