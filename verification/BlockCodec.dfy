/** The `Block` classes: how each block record is laid out in the longs of a block, and why reading
    what was written gives the record back.  Long `-k` counts from the end of the block. */
module BlockCodec {
  import opened Bytes
  import opened Device

  const T_SHORT: long := 2
  const T_DATA: long := 8
  const T_LIST: long := 16
  const ST_ROOT: long := 1
  const ST_USERDIR: long := 2
  const ST_FILE: long := 0xFFFF_FFFD
  const CHK_LOC := 5

  /** What reading a block gives: nothing valid, a block whose name is longer than its field (the name is then
      None, here []), or a good block. */
  datatype Decoded = Invalid | NoName(block: Block) | Good(block: Block)

  function Named(name: Option<seq<byte>>, block: Block): Decoded {
    if name.Some? then Good(block) else NoName(block)
  }

  // ----- bytes in longs -----

  /** The bytes of a run of longs. */
  function Unpack(longs: seq<long>): (b: seq<byte>)
    ensures |b| == 4 * |longs|
  {
    if longs == [] then [] else LongBytes(longs[0]) + Unpack(longs[1..])
  }

  /** `k` longs that hold the bytes `b`, with zeros behind them. */
  function Pack(b: seq<byte>, k: nat): (longs: seq<long>)
    ensures |longs| == k
    decreases k
  {
    if k == 0 then [] else
      var four := if |b| >= 4 then b[..4] else b + ZeroBytes(4 - |b|);
      [LongAt(four, 0)] + Pack(if |b| >= 4 then b[4..] else [], k - 1)
  }

  lemma {:induction false} UnpackPack(b: seq<byte>, k: nat)
    requires |b| <= 4 * k
    ensures |Unpack(Pack(b, k))| >= |b| && Unpack(Pack(b, k))[..|b|] == b
    decreases k
  {
    hide LongAt, LongBytes;
    if k > 0 {
      var four := if |b| >= 4 then b[..4] else b + ZeroBytes(4 - |b|);
      var rest := if |b| >= 4 then b[4..] else [];
      var packed, tail := Pack(b, k), Pack(rest, k - 1);
      assert packed == [LongAt(four, 0)] + tail && packed[1..] == tail;
      SameLong(four);
      UnpackPack(rest, k - 1);
      assert Unpack(packed) == four + Unpack(tail);
      FourAndRest(b, four, rest, Unpack(tail));
    }
  }

  /** Byte `j` of the unpacked longs is byte `j % 4` of long `j / 4`, and behind the packed bytes there are zeros. */
  lemma {:induction false} UnpackAt(longs: seq<long>, j: nat)
    requires j < 4 * |longs|
    ensures Unpack(longs)[j] == LongBytes(longs[j / 4])[j % 4]
  {
    hide LongBytes;
    if j >= 4 {
      UnpackAt(longs[1..], j - 4);
      assert (j - 4) / 4 == j / 4 - 1 && (j - 4) % 4 == j % 4;
    }
  }

  lemma {:induction false} PackZeros(b: seq<byte>, k: nat, j: nat)
    requires |b| <= j < 4 * k
    ensures Unpack(Pack(b, k))[j] == 0
    decreases k
  {
    hide LongAt, LongBytes;
    var four := if |b| >= 4 then b[..4] else b + ZeroBytes(4 - |b|);
    var rest := if |b| >= 4 then b[4..] else [];
    var packed, tail := Pack(b, k), Pack(rest, k - 1);
    assert packed == [LongAt(four, 0)] + tail && packed[1..] == tail;
    SameLong(four);
    assert Unpack(packed) == four + Unpack(tail);
    if j >= 4 { PackZeros(rest, k - 1, j - 4); }
  }

  lemma FourAndRest(b: seq<byte>, four: seq<byte>, rest: seq<byte>, u: seq<byte>)
    requires four == (if |b| >= 4 then b[..4] else b + ZeroBytes(4 - |b|))
    requires rest == (if |b| >= 4 then b[4..] else []) && |rest| <= |u| && u[..|rest|] == rest
    ensures |b| <= |four + u| && (four + u)[..|b|] == b
  {
    if |b| >= 4 {
      assert b == four + rest;
      assert (four + u)[..|b|] == four + u[..|rest|];
    } else {
      assert (four + u)[..|b|] == four[..|b|];
    }
  }

  lemma SameLong(four: seq<byte>)
    requires |four| == 4
    ensures LongBytes(LongAt(four, 0)) == four
  {
    LongAtInjective(LongBytes(LongAt(four, 0)), 0, four, 0);
    assert LongBytes(LongAt(four, 0))[0..4] == LongBytes(LongAt(four, 0)) && four[0..4] == four;
  }

  function BstrBytes(s: seq<byte>): seq<byte>
    requires |s| < 256
  {
    [|s|] + s
  }

  /** `_put_bstr` into an area of `k` longs: a length byte and at most `max` characters; None where the
      assertion fails. */
  function BstrArea(s: seq<byte>, max: byte, k: nat): Option<seq<long>> {
    if |s| >= 256 then None else Some(Pack(BstrBytes(CutTo(s, max)), k))
  }

  /** `_get_bstr` from the bytes of its area; None for a length above `max`. */
  function BstrOf(area: seq<byte>, max: byte): Option<seq<byte>> {
    if area == [] || area[0] > max || |area| <= area[0] then None else Some(area[1..1 + area[0]])
  }

  /** A string below 256 characters can be written; it survives exactly when its field has room, and else
      comes back cut. */
  lemma BstrRoundTrip(s: seq<byte>, max: byte, k: nat)
    requires max < 4 * k
    ensures var area := BstrArea(s, max, k);
      && (area.None? <==> |s| >= 256)
      && (area.Some? ==> BstrOf(Unpack(area.value), max) == Some(CutTo(s, max)))
      && (area.Some? ==> (BstrOf(Unpack(area.value), max) == Some(s) <==> |s| <= max))
  {
    if |s| < 256 { BstrWhole(CutTo(s, max), max, k); }
  }

  lemma BstrWhole(s: seq<byte>, max: byte, k: nat)
    requires |s| <= max < 4 * k
    ensures BstrOf(Unpack(Pack(BstrBytes(s), k)), max) == Some(s)
  {
    var b := BstrBytes(s);
    UnpackPack(b, k);
    var u := Unpack(Pack(b, k));
    assert u[..|b|][0] == b[0] && u[1..|b|] == u[..|b|][1..];
  }

  // ----- the checksum -----

  /** The sum over the first `n` longs without the checksum's own. */
  function LongSum(s: seq<long>, chk: nat, n: nat): int
    requires n <= |s|
  {
    if n == 0 then 0 else LongSum(s, chk, n - 1) + if n - 1 == chk then 0 else s[n - 1]
  }

  /** `_calc_chksum`: minus the sum, in 32 bits. */
  function Chksum(s: seq<long>, chk: nat): long {
    (-LongSum(s, chk, |s|)) % 0x1_0000_0000
  }

  predicate ChksumOk(s: seq<long>, chk: nat)
  {
    chk < |s| && s[chk] == Chksum(s, chk)
  }

  lemma {:induction false} SumSkips(s: seq<long>, chk: nat, v: long, n: nat)
    requires n <= |s| && chk < |s|
    ensures LongSum(s[chk := v], chk, n) == LongSum(s, chk, n)
  {
    if n > 0 {
      SumSkips(s, chk, v, n - 1);
    }
  }

  /** The sum of the first `n` longs. */
  function Total(s: seq<long>, n: nat): nat
    requires n <= |s|
  {
    if n == 0 then 0 else Total(s, n - 1) + s[n - 1]
  }

  lemma {:induction false} SumAndOwn(s: seq<long>, chk: nat, n: nat)
    requires n <= |s|
    ensures Total(s, n) == LongSum(s, chk, n) + if chk < n then s[chk] else 0
  {
    if n > 0 { SumAndOwn(s, chk, n - 1); }
  }

  /** A checksum is right exactly when all longs of the block, its own included, add up to 0 in 32 bits. */
  lemma ChksumIsZeroSum(s: seq<long>, chk: nat)
    requires chk < |s|
    ensures ChksumOk(s, chk) <==> Total(s, |s|) % 0x1_0000_0000 == 0
  {
    SumAndOwn(s, chk, |s|);
    ZeroSum(LongSum(s, chk, |s|), s[chk]);
  }

  lemma ZeroSum(sum: int, v: long)
    ensures v == (-sum) % 0x1_0000_0000 <==> (sum + v) % 0x1_0000_0000 == 0
  {
  }

  /** Storing the checksum makes it right. */
  lemma StoredChksumOk(s: seq<long>, chk: nat)
    requires chk < |s|
    ensures ChksumOk(s[chk := Chksum(s, chk)], chk)
  {
    SumSkips(s, chk, Chksum(s, chk), |s|);
  }

  lemma {:induction false} SumChange(s: seq<long>, chk: nat, i: nat, v: long, n: nat)
    requires i < n <= |s| && i != chk
    ensures LongSum(s[i := v], chk, n) == LongSum(s, chk, n) - s[i] + v
  {
    if i < n - 1 {
      SumChange(s, chk, i, v, n - 1);
    } else {
      SumSame(s, chk, i, v, n - 1);
    }
  }

  lemma {:induction false} SumSame(s: seq<long>, chk: nat, i: nat, v: long, n: nat)
    requires n <= i < |s|
    ensures LongSum(s[i := v], chk, n) == LongSum(s, chk, n)
  {
    if n > 0 {
      SumSame(s, chk, i, v, n - 1);
    }
  }

  /** Any change of one long breaks the checksum, wherever it is. */
  lemma OneLongDetected(s: seq<long>, chk: nat, i: nat, v: long)
    requires ChksumOk(s, chk) && i < |s| && v != s[i]
    ensures !ChksumOk(s[i := v], chk)
  {
    var t := s[i := v];
    if i == chk {
      SumSkips(s, chk, v, |s|);
    } else {
      SumChange(s, chk, i, v, |s|);
      NegInjective(LongSum(s, chk, |s|), s[i], v);
    }
  }

  lemma NegInjective(sum: int, a: long, b: long)
    requires a != b
    ensures (-sum) % 0x1_0000_0000 != (-(sum - a + b)) % 0x1_0000_0000
  {
  }

  // ----- runs of longs in a block -----

  ghost predicate Holds(s: seq<long>, at: nat, vals: seq<long>) {
    at + |vals| <= |s| && forall j :: 0 <= j < |vals| ==> s[at + j] == vals[j]
  }

  lemma HoldsSlice(s: seq<long>, at: nat, vals: seq<long>)
    requires Holds(s, at, vals)
    ensures s[at..at + |vals|] == vals
  {
  }

  /** A string field of `k` longs. */
  ghost predicate HoldsBstr(s: seq<long>, at: nat, k: nat, max: byte, str: seq<byte>) {
    |str| <= max && Holds(s, at, Pack(BstrBytes(str), k))
  }

  function BstrAt(s: seq<long>, at: nat, k: nat, max: byte): Option<seq<byte>>
    requires at + k <= |s|
  {
    BstrOf(Unpack(s[at..at + k]), max)
  }

  lemma BstrBack(s: seq<long>, at: nat, k: nat, max: byte, str: seq<byte>)
    requires HoldsBstr(s, at, k, max, str) && max < 4 * k
    ensures BstrAt(s, at, k, max) == Some(str)
  {
    HoldsSlice(s, at, Pack(BstrBytes(str), k));
    BstrWhole(str, max, k);
  }

  /** `n` longs read downwards from index `from`: the data pointers of header and list blocks. */
  function Down(s: seq<long>, from: int, n: nat): (r: seq<nat>)
    requires -1 <= from < |s| && n <= from + 1
    ensures |r| == n && forall i :: 0 <= i < n ==> r[i] == s[from - i]
  {
    seq(n, i requires 0 <= i < n => s[from - i])
  }

  /** `n` longs read upwards. */
  function Up(s: seq<long>, from: nat, n: nat): (r: seq<nat>)
    requires from + n <= |s|
    ensures |r| == n && forall i :: 0 <= i < n ==> r[i] == s[from + i]
  {
    seq(n, i requires 0 <= i < n => s[from + i])
  }

  // ----- the buffer of a block -----

  /** `Block.data`, seen as longs. */
  class Buffer {
    const longs: array<long>

    /** `_create_data`. */
    constructor (n: nat)
      ensures fresh(longs) && longs.Length == n && forall i :: 0 <= i < n ==> longs[i] == 0
    {
      longs := new long[n](_ => 0);
    }

    function Index(num: int): int
      reads this
    {
      if num < 0 then longs.Length + num else num
    }

    method PutLong(num: int, val: long)
      requires 0 <= Index(num) < longs.Length
      modifies longs
      ensures longs[Index(num)] == val
      ensures forall j :: 0 <= j < longs.Length && j != Index(num) ==> longs[j] == old(longs[j])
    {
      longs[Index(num)] := val;
    }

    /** The loops that put one table entry after the other, upwards. */
    method PutUp(first: int, vals: seq<nat>)
      requires 0 <= Index(first) && Index(first) + |vals| <= longs.Length && AreLongs(vals)
      modifies longs
      ensures forall j :: 0 <= j < longs.Length ==>
        longs[j] == if Index(first) <= j < Index(first) + |vals| then vals[j - Index(first)] else old(longs[j])
    {
      for i := 0 to |vals|
        invariant forall j :: 0 <= j < longs.Length ==>
          longs[j] == if Index(first) <= j < Index(first) + i then vals[j - Index(first)] else old(longs[j])
      {
        longs[Index(first) + i] := vals[i];
      }
    }

    /** The loop that puts the data pointers, downwards. */
    method PutDown(first: int, vals: seq<nat>)
      requires Index(first) < longs.Length && 0 <= Index(first) - |vals| + 1 && AreLongs(vals)
      modifies longs
      ensures forall j :: 0 <= j < longs.Length ==>
        longs[j] == if Index(first) - |vals| < j <= Index(first) then vals[Index(first) - j] else old(longs[j])
    {
      for i := 0 to |vals|
        invariant forall j :: 0 <= j < longs.Length ==>
          longs[j] == if Index(first) - i < j <= Index(first) then vals[Index(first) - j] else old(longs[j])
      {
        longs[Index(first) - i] := vals[i];
      }
    }

    /** `_put_bstr`; a string of 256 characters or more fails before anything is written. */
    method PutBstr(loc: int, k: nat, max: byte, str: seq<byte>) returns (ok: bool)
      requires 0 <= Index(loc) && Index(loc) + k <= longs.Length && max < 4 * k
      modifies longs
      ensures ok <==> BstrArea(str, max, k).Some?
      ensures forall j :: 0 <= j < longs.Length ==>
        longs[j] == if ok && Index(loc) <= j < Index(loc) + k then BstrArea(str, max, k).value[j - Index(loc)]
                    else old(longs[j])
    {
      ok := |str| < 256;
      if !ok { return; }
      var area := Pack(BstrBytes(CutTo(str, max)), k);
      for i := 0 to k
        invariant forall j :: 0 <= j < longs.Length ==>
          longs[j] == if Index(loc) <= j < Index(loc) + i then area[j - Index(loc)] else old(longs[j])
      {
        longs[Index(loc) + i] := area[i];
      }
    }

    /** `_calc_chksum`. */
    method CalcChksum(chkLoc: nat) returns (chksum: long)
      ensures chksum == Chksum(longs[..], chkLoc)
    {
      var sum: int := 0;
      for i := 0 to longs.Length
        invariant sum == LongSum(longs[..], chkLoc, i)
      {
        if i != chkLoc { sum := sum + longs[i]; }
      }
      chksum := (-sum) % 0x1_0000_0000;
    }

    /** `_put_chksum`. */
    method PutChksum(chkLoc: nat)
      requires chkLoc < longs.Length
      modifies longs
      ensures ChksumOk(longs[..], chkLoc)
      ensures forall j :: 0 <= j < longs.Length && j != chkLoc ==> longs[j] == old(longs[j])
    {
      var chksum := CalcChksum(chkLoc);
      StoredChksumOk(longs[..], chkLoc);
      longs[chkLoc] := chksum;
    }

    method PutTimestamp(loc: int, days: long, mins: long, ticks: long)
      requires 0 <= Index(loc) && Index(loc) + 3 <= longs.Length && (loc < 0 ==> loc + 2 < 0)
      modifies longs
      ensures longs[Index(loc)] == days && longs[Index(loc) + 1] == mins && longs[Index(loc) + 2] == ticks
      ensures forall j :: 0 <= j < longs.Length && !(Index(loc) <= j < Index(loc) + 3) ==> longs[j] == old(longs[j])
    {
      PutLong(loc, days);
      PutLong(loc + 1, mins);
      PutLong(loc + 2, ticks);
    }

    /** `_put_types`. */
    method PutTypes(isType: long, isSubType: Option<long>)
      requires longs.Length > 56
      modifies longs
      ensures longs[0] == isType && (isSubType.Some? ==> longs[longs.Length - 1] == isSubType.value)
      ensures Agree(old(longs[..]), longs[..], 1, longs.Length - 1)
      ensures isSubType.None? ==> Agree(old(longs[..]), longs[..], 1, longs.Length)
    {
      PutLong(0, isType);
      if isSubType.Some? { PutLong(-1, isSubType.value); }
    }

    /** Protect bits, file size, comment, time stamp and name, as both kinds of entry block put them. */
    method PutEntry(size: Option<long>, meta: Meta, name: seq<byte>) returns (ok: bool)
      requires longs.Length > 56
      modifies longs
      ensures ok <==> |name| < 256 && |meta.comment| < 256
      ensures ok ==> EntryOk(longs[..], CutMeta(meta), CutTo(name, NAME_FIELD))
      ensures ok && size.Some? ==> longs[longs.Length - 47] == size.value
      ensures Agree(old(longs[..]), longs[..], 0, longs.Length - 48)
      ensures Agree(old(longs[..]), longs[..], longs.Length - 12, longs.Length)
    {
      hide Pack, BstrBytes;
      PutLong(-48, meta.protect);
      if size.Some? { PutLong(-47, size.value); }
      ok := PutBstr(-46, 20, COMMENT_FIELD, meta.comment);
      if !ok { return; }
      PutTimestamp(-23, meta.days, meta.mins, meta.ticks);
      ok := PutBstr(-20, 8, NAME_FIELD, name);
    }

    method PutLinks(hashChain: Option<long>, parent: long, extension: long)
      requires longs.Length > 56
      modifies longs
      ensures LinksOk(longs[..], parent, extension)
      ensures hashChain.Some? ==> longs[longs.Length - 4] == hashChain.value
      ensures Agree(old(longs[..]), longs[..], 0, longs.Length - 4)
    {
      if hashChain.Some? { PutLong(-4, hashChain.value); }
      PutLong(-3, parent);
      PutLong(-2, extension);
    }

    /** Own key, counts and the table of data pointers of header and list blocks. */
    method PutPointers(ownKey: long, dat: seq<nat>, firstData: bool)
      requires 56 < longs.Length < 0x1_0000_0000 && AreLongs(dat) && |dat| <= longs.Length - 56
      modifies longs
      ensures PointersOk(longs[..], ownKey, dat)
      ensures firstData ==> longs[4] == if |dat| == 0 then 0 else dat[0]
      ensures Agree(old(longs[..]), longs[..], longs.Length - 50, longs.Length)
    {
      PutLong(1, ownKey);
      PutLong(2, |dat|);
      if firstData { PutLong(4, if |dat| == 0 then 0 else dat[0]); }
      PutDown(-51, dat);
    }

    /** `FileHeaderBlock.write` on a fresh buffer: fails for a size or a string too long to write, else the
        block holds the record with its strings cut to their fields. */
    method WriteFileHeader(r: Block) returns (ok: bool)
      requires r.FileHeader? && NumbersFit(r.(byteSize := 0), longs.Length)
      modifies longs
      ensures ok <==> Writable(r, longs.Length)
      ensures ok ==> IsFileHeader(longs[..], Trimmed(r))
    {
      hide ChksumOk, EntryOk, PointersOk;
      PutPointers(r.ownKey, r.dataBlocks, true);
      // the error of `struct`
      if r.byteSize >= 0x1_0000_0000 { return false; }
      ok := PutEntry(Some(r.byteSize), r.meta, r.name);
      if !ok { return; }
      ghost var s := longs[..];
      PutLinks(Some(r.hashChain), r.parent, r.extension);
      PutTypes(T_SHORT, Some(ST_FILE));
      PutChksum(CHK_LOC);
      EntryKept(s, longs[..], CutMeta(r.meta), CutTo(r.name, NAME_FIELD));
      PointersKept(s, longs[..], r.ownKey, r.dataBlocks);
    }

    /** `FileListBlock.write`. */
    method WriteFileList(r: Block)
      requires r.FileList? && Storable(r, longs.Length)
      modifies longs
      ensures IsFileList(longs[..], r)
    {
      hide ChksumOk, PointersOk;
      PutPointers(r.ownKey, r.dataBlocks, false);
      ghost var s := longs[..];
      PutLinks(None, r.parent, r.extension);
      PutTypes(T_LIST, Some(ST_FILE));
      PutChksum(CHK_LOC);
      PointersKept(s, longs[..], r.ownKey, r.dataBlocks);
    }

    /** `FileDataBlock.write`; the contents are bytes 24 and up. */
    method WriteFileData(r: Block)
      requires r.FileData? && Storable(r, longs.Length)
      modifies longs
      ensures IsFileData(longs[..], r)
    {
      hide ChksumOk, Pack;
      PutLong(1, r.hdrKey);
      PutLong(2, r.seqNum);
      PutLong(3, |r.contents|);
      PutLong(4, r.nextData);
      PutUp(6, Pack(r.contents, longs.Length - 6));
      PutTypes(T_DATA, None);
      PutChksum(CHK_LOC);
    }

    /** `UserDirBlock.write`. */
    method WriteUserDir(r: Block) returns (ok: bool)
      requires r.UserDir? && NumbersFit(r, longs.Length)
      modifies longs
      ensures ok <==> Writable(r, longs.Length)
      ensures ok ==> IsUserDir(longs[..], Trimmed(r))
    {
      hide ChksumOk, EntryOk;
      PutLong(1, r.ownKey);
      ok := PutEntry(None, r.meta, r.name);
      if !ok { return; }
      ghost var s := longs[..];
      PutLinks(Some(r.hashChain), r.parent, 0);
      // hash table
      PutUp(6, r.dirTable);
      PutTypes(T_SHORT, Some(ST_USERDIR));
      PutChksum(CHK_LOC);
      EntryKept(s, longs[..], CutMeta(r.meta), CutTo(r.name, NAME_FIELD));
    }

    /** `RootBlock.write`. */
    method WriteRoot(r: Block) returns (ok: bool)
      requires r.Root? && NumbersFit(r, longs.Length)
      modifies longs
      ensures ok <==> Writable(r, longs.Length)
      ensures ok ==> IsRoot(longs[..], Trimmed(r))
    {
      hide ChksumOk, Pack, BstrBytes;
      // hash table
      PutLong(3, longs.Length - 56);
      PutUp(6, r.rootTable);
      // bitmap
      PutLong(-50, 0xFFFF_FFFF);
      PutUp(-49, r.bitmapPtrs);
      PutLong(-24, r.bitmapExt);
      ghost var s := longs[..];
      ok := PutRootTail(r);
      if !ok { return; }
      ghost var t := longs[..];
      PutTypes(T_SHORT, Some(ST_ROOT));
      PutChksum(CHK_LOC);
      RootTailKept(t, longs[..], Trimmed(r));
    }

    /** Time stamps, name and the last longs of a root block. */
    method PutRootTail(r: Block) returns (ok: bool)
      requires r.Root? && longs.Length > 56
      modifies longs
      ensures ok <==> |r.rootName| < 256
      ensures ok ==> RootTailOk(longs[..], Trimmed(r))
      ensures Agree(old(longs[..]), longs[..], 0, longs.Length - 23)
    {
      hide Pack, BstrBytes;
      PutTimestamp(-23, r.meta.days, r.meta.mins, r.meta.ticks);
      PutTimestamp(-10, r.diskTime.days, r.diskTime.mins, r.diskTime.ticks);
      PutTimestamp(-7, r.createTime.days, r.createTime.mins, r.createTime.ticks);
      // name
      ok := PutBstr(-20, 8, NAME_FIELD, r.rootName);
      if !ok { return; }
      PutLong(-2, 0);
      PutLong(-11, 0);
      PutLong(-4, r.fsType);
    }

    /** `BitmapBlock.set_bitmap_data` and `write`: the checksum is long 0. */
    method WriteBitmap(r: Block)
      requires r.Bitmap? && Storable(r, longs.Length)
      modifies longs
      ensures IsBitmap(longs[..], r)
    {
      hide ChksumOk, Pack;
      PutUp(1, Pack(r.bits, longs.Length - 1));
      PutChksum(0);
    }

    /** `BitmapExtBlock.write`: no types and no checksum. */
    method WriteBitmapExt(r: Block)
      requires r.BitmapExt? && Storable(r, longs.Length)
      modifies longs
      ensures IsBitmapExt(longs[..], r)
    {
      PutUp(0, r.ptrs);
      PutLong(-1, r.next);
    }

    // ----- reading -----

    /** `Block.read`: types and checksum. */
    method ValidBlock(isType: long, isSubType: Option<long>) returns (valid: bool)
      requires longs.Length > 56
      ensures valid == Valid(longs[..], isType, isSubType)
    {
      var chksum := CalcChksum(CHK_LOC);
      var subTypeOk := isSubType.Some? ==> longs[longs.Length - 1] == isSubType.value;
      valid := longs[0] == isType && subTypeOk && longs[CHK_LOC] == chksum;
    }

    method GetDown(first: int, n: nat) returns (r: seq<nat>)
      requires Index(first) < longs.Length && n <= Index(first) + 1
      ensures r == Down(longs[..], Index(first), n)
    {
      r := [];
      for i := 0 to n
        invariant |r| == i && forall k :: 0 <= k < i ==> r[k] == longs[Index(first) - k]
      {
        r := r + [longs[Index(first) - i]];
      }
    }

    method GetUp(first: int, n: nat) returns (r: seq<nat>)
      requires 0 <= Index(first) && Index(first) + n <= longs.Length
      ensures r == Up(longs[..], Index(first), n)
    {
      r := [];
      for i := 0 to n
        invariant |r| == i && forall k :: 0 <= k < i ==> r[k] == longs[Index(first) + k]
      {
        r := r + [longs[Index(first) + i]];
      }
    }

    /** `FileHeaderBlock._read`; invalid also for a foreign own key. */
    method ReadFileHeader(blkNum: nat) returns (r: Decoded)
      requires longs.Length > 56
      ensures r == DecodeFileHeader(longs[..], blkNum)
    {
      hide Valid, BstrOf, Unpack;
      var s := longs[..];
      var valid := ValidBlock(T_SHORT, Some(ST_FILE));
      if !valid { return Invalid; }
      // read (limited) data blocks table
      var bc: nat := longs[2];
      if bc > longs.Length - 56 { bc := longs.Length - 56; }
      var dat := GetDown(-51, bc);
      var comment, name := BstrAt(s, |s| - 46, 20, 79), BstrAt(s, |s| - 20, 8, 30);
      var meta := Meta(longs[|s| - 48], comment.UnwrapOr([]), longs[|s| - 23], longs[|s| - 22], longs[|s| - 21]);
      if longs[1] != blkNum { return Invalid; }
      r := Named(name, FileHeader(longs[1], longs[|s| - 3], name.UnwrapOr([]), longs[|s| - 4], longs[|s| - 47], dat,
                                  longs[|s| - 2], meta));
    }

    /** `FileListBlock._read`. */
    method ReadFileList(blkNum: nat) returns (r: Decoded)
      requires longs.Length > 56
      ensures r == DecodeFileList(longs[..], blkNum)
    {
      hide Valid;
      var n := longs.Length;
      var valid := ValidBlock(T_LIST, Some(ST_FILE));
      if !valid { return Invalid; }
      var bc: nat := longs[2];
      if bc > n - 56 { bc := n - 56; }
      var dat := GetDown(-51, bc);
      if longs[1] != blkNum { return Invalid; }
      r := Good(FileList(longs[1], longs[n - 3], dat, longs[n - 2]));
    }

    /** `FileDataBlock._read` and `get_block_data`. */
    method ReadFileData() returns (r: Decoded)
      requires longs.Length > 56
      ensures r == DecodeFileData(longs[..])
    {
      hide Valid, Unpack;
      var valid := ValidBlock(T_DATA, None);
      if !valid { return Invalid; }
      var size: nat, body := longs[3], Unpack(longs[6..]);
      r := Good(FileData(longs[1], longs[2], longs[4], body[..if size < |body| then size else |body|]));
    }

    /** `UserDirBlock._read`. */
    method ReadUserDir(blkNum: nat) returns (r: Decoded)
      requires longs.Length > 56
      ensures r == DecodeUserDir(longs[..], blkNum)
    {
      hide Valid, BstrOf, Unpack;
      var s := longs[..];
      var valid := ValidBlock(T_SHORT, Some(ST_USERDIR));
      if !valid { return Invalid; }
      var comment, name := BstrAt(s, |s| - 46, 20, 79), BstrAt(s, |s| - 20, 8, 30);
      var meta := Meta(longs[|s| - 48], comment.UnwrapOr([]), longs[|s| - 23], longs[|s| - 22], longs[|s| - 21]);
      var table := GetUp(6, |s| - 56);
      if longs[1] != blkNum { return Invalid; }
      r := Named(name, UserDir(longs[1], longs[|s| - 3], name.UnwrapOr([]), longs[|s| - 4], table, meta));
    }

    /** `RootBlock._read`: the stored table size is limited to what the block has room for. */
    method ReadRoot() returns (r: Decoded)
      requires longs.Length > 56
      ensures r == DecodeRoot(longs[..])
    {
      hide Valid, BstrOf, Unpack;
      var s := longs[..];
      var valid := ValidBlock(T_SHORT, Some(ST_ROOT));
      if !valid { return Invalid; }
      var hs: nat := longs[3];
      if hs > |s| - 56 { hs := |s| - 56; }
      var table := GetUp(6, hs);
      var ptrs := GetUp(-49, 25);
      var name := BstrAt(s, |s| - 20, 8, 30);
      var meta := Meta(0, [], longs[|s| - 23], longs[|s| - 22], longs[|s| - 21]);
      r := Named(name, Root(name.UnwrapOr([]), table, ptrs, longs[|s| - 24], meta,
                            Time(longs[|s| - 10], longs[|s| - 9], longs[|s| - 8]),
                            Time(longs[|s| - 7], longs[|s| - 6], longs[|s| - 5]), longs[|s| - 4]));
    }
  }

  // ----- what reading makes of a block -----

  predicate Valid(s: seq<long>, isType: long, isSubType: Option<long>)
    requires |s| > 56
  {
    s[0] == isType && (isSubType.Some? ==> s[|s| - 1] == isSubType.value) && ChksumOk(s, CHK_LOC)
  }

  function Limited(n: nat, max: nat): nat { if n > max then max else n }

  function EntryMeta(s: seq<long>): Meta
    requires |s| > 56
  {
    Meta(s[|s| - 48], BstrAt(s, |s| - 46, 20, 79).UnwrapOr([]), s[|s| - 23], s[|s| - 22], s[|s| - 21])
  }

  function DecodeFileHeader(s: seq<long>, blkNum: nat): Decoded
    requires |s| > 56
  {
    if !Valid(s, T_SHORT, Some(ST_FILE)) || s[1] != blkNum then Invalid else
      var name := BstrAt(s, |s| - 20, 8, 30);
      Named(name, FileHeader(s[1], s[|s| - 3], name.UnwrapOr([]), s[|s| - 4], s[|s| - 47],
                             Down(s, |s| - 51, Limited(s[2], |s| - 56)), s[|s| - 2], EntryMeta(s)))
  }

  function DecodeFileList(s: seq<long>, blkNum: nat): Decoded
    requires |s| > 56
  {
    if !Valid(s, T_LIST, Some(ST_FILE)) || s[1] != blkNum then Invalid else
      Good(FileList(s[1], s[|s| - 3], Down(s, |s| - 51, Limited(s[2], |s| - 56)), s[|s| - 2]))
  }

  function DecodeFileData(s: seq<long>): Decoded
    requires |s| > 56
  {
    if !Valid(s, T_DATA, None) then Invalid else
      var body := Unpack(s[6..]);
      Good(FileData(s[1], s[2], s[4], body[..Limited(s[3], |body|)]))
  }

  function DecodeUserDir(s: seq<long>, blkNum: nat): Decoded
    requires |s| > 56
  {
    if !Valid(s, T_SHORT, Some(ST_USERDIR)) || s[1] != blkNum then Invalid else
      var name := BstrAt(s, |s| - 20, 8, 30);
      Named(name, UserDir(s[1], s[|s| - 3], name.UnwrapOr([]), s[|s| - 4], Up(s, 6, |s| - 56), EntryMeta(s)))
  }

  function DecodeRoot(s: seq<long>): Decoded
    requires |s| > 56
  {
    if !Valid(s, T_SHORT, Some(ST_ROOT)) then Invalid else
      var name := BstrAt(s, |s| - 20, 8, 30);
      Named(name, Root(name.UnwrapOr([]), Up(s, 6, Limited(s[3], |s| - 56)), Up(s, |s| - 49, 25), s[|s| - 24],
                       Meta(0, [], s[|s| - 23], s[|s| - 22], s[|s| - 21]), Time(s[|s| - 10], s[|s| - 9], s[|s| - 8]),
                       Time(s[|s| - 7], s[|s| - 6], s[|s| - 5]), s[|s| - 4]))
  }

  /** `BitmapBlock`: the bits are what follows the checksum. */
  function DecodeBitmap(s: seq<long>): Decoded
    requires |s| > 56
  {
    if !ChksumOk(s, 0) then Invalid else Good(Bitmap(Unpack(s[1..])))
  }

  function DecodeBitmapExt(s: seq<long>): Block
    requires |s| > 56
  {
    BitmapExt(Up(s, 0, |s| - 1), s[|s| - 1])
  }

  // ----- groups of fields -----

  ghost predicate Agree(s: seq<long>, t: seq<long>, lo: int, hi: int) {
    |s| == |t| && forall j :: 0 <= j < |s| && lo <= j < hi ==> t[j] == s[j]
  }

  ghost predicate EntryOk(s: seq<long>, meta: Meta, name: seq<byte>) {
    var n := |s|;
    && n > 56 && s[n - 48] == meta.protect && HoldsBstr(s, n - 46, 20, 79, meta.comment)
    && s[n - 23] == meta.days && s[n - 22] == meta.mins && s[n - 21] == meta.ticks && HoldsBstr(s, n - 20, 8, 30, name)
  }

  lemma EntryKept(s: seq<long>, t: seq<long>, meta: Meta, name: seq<byte>)
    requires EntryOk(s, meta, name) && Agree(s, t, |s| - 48, |s| - 12)
    ensures EntryOk(t, meta, name)
  {
    hide Pack, BstrBytes;
  }

  ghost predicate LinksOk(s: seq<long>, parent: nat, extension: nat) {
    |s| > 56 && s[|s| - 3] == parent && s[|s| - 2] == extension
  }

  ghost predicate PointersOk(s: seq<long>, ownKey: nat, dat: seq<nat>) {
    && |dat| <= |s| - 56 && s[1] == ownKey && s[2] == |dat|
    && forall i :: 0 <= i < |dat| ==> s[|s| - 51 - i] == dat[i]
  }

  lemma PointersKept(s: seq<long>, t: seq<long>, ownKey: nat, dat: seq<nat>)
    requires PointersOk(s, ownKey, dat) && Agree(s, t, 1, 5) && Agree(s, t, 6, |s| - 50)
    ensures PointersOk(t, ownKey, dat)
  {
  }

  ghost predicate IsFileHeader(s: seq<long>, r: Block)
    requires r.FileHeader?
  {
    && |s| > 56 && s[0] == T_SHORT && s[|s| - 1] == ST_FILE && ChksumOk(s, CHK_LOC)
    && PointersOk(s, r.ownKey, r.dataBlocks) && s[4] == (if |r.dataBlocks| == 0 then 0 else r.dataBlocks[0])
    && EntryOk(s, r.meta, r.name) && s[|s| - 47] == r.byteSize
    && s[|s| - 4] == r.hashChain && LinksOk(s, r.parent, r.extension)
  }

  ghost predicate IsFileList(s: seq<long>, r: Block)
    requires r.FileList?
  {
    && |s| > 56 && s[0] == T_LIST && s[|s| - 1] == ST_FILE && ChksumOk(s, CHK_LOC)
    && PointersOk(s, r.ownKey, r.dataBlocks) && LinksOk(s, r.parent, r.extension)
  }

  ghost predicate IsFileData(s: seq<long>, r: Block)
    requires r.FileData?
  {
    && |s| > 56 && s[0] == T_DATA && ChksumOk(s, CHK_LOC)
    && s[1] == r.hdrKey && s[2] == r.seqNum && s[3] == |r.contents| && s[4] == r.nextData
    && Holds(s, 6, Pack(r.contents, |s| - 6))
  }

  ghost predicate IsUserDir(s: seq<long>, r: Block)
    requires r.UserDir?
  {
    && |s| > 56 && s[0] == T_SHORT && s[|s| - 1] == ST_USERDIR && ChksumOk(s, CHK_LOC)
    && s[1] == r.ownKey && EntryOk(s, r.meta, r.name) && s[|s| - 4] == r.hashChain && LinksOk(s, r.parent, 0)
    && |r.dirTable| == |s| - 56 && forall i :: 0 <= i < |r.dirTable| ==> s[6 + i] == r.dirTable[i]
  }

  ghost predicate RootTailOk(s: seq<long>, r: Block)
    requires r.Root?
  {
    var n := |s|;
    && n > 56 && s[n - 23] == r.meta.days && s[n - 22] == r.meta.mins && s[n - 21] == r.meta.ticks
    && HoldsBstr(s, n - 20, 8, 30, r.rootName) && s[n - 4] == r.fsType
    && s[n - 10] == r.diskTime.days && s[n - 9] == r.diskTime.mins && s[n - 8] == r.diskTime.ticks
    && s[n - 7] == r.createTime.days && s[n - 6] == r.createTime.mins && s[n - 5] == r.createTime.ticks
  }

  lemma RootTailKept(s: seq<long>, t: seq<long>, r: Block)
    requires r.Root? && RootTailOk(s, r) && Agree(s, t, |s| - 23, |s| - 1)
    ensures RootTailOk(t, r)
  {
    hide Pack, BstrBytes;
  }

  ghost predicate IsRoot(s: seq<long>, r: Block)
    requires r.Root?
  {
    && |s| > 56 && s[0] == T_SHORT && s[|s| - 1] == ST_ROOT && ChksumOk(s, CHK_LOC)
    && s[3] == |r.rootTable| == |s| - 56 && (forall i :: 0 <= i < |r.rootTable| ==> s[6 + i] == r.rootTable[i])
    && |r.bitmapPtrs| == 25 && (forall i :: 0 <= i < 25 ==> s[|s| - 49 + i] == r.bitmapPtrs[i])
    && s[|s| - 50] == 0xFFFF_FFFF && s[|s| - 24] == r.bitmapExt && RootTailOk(s, r)
  }

  ghost predicate IsBitmap(s: seq<long>, r: Block)
    requires r.Bitmap?
  {
    |s| > 56 && ChksumOk(s, 0) && Holds(s, 1, Pack(r.bits, |s| - 1))
  }

  ghost predicate IsBitmapExt(s: seq<long>, r: Block)
    requires r.BitmapExt?
  {
    && |s| > 56 && |r.ptrs| == |s| - 1 && s[|s| - 1] == r.next
    && forall i :: 0 <= i < |r.ptrs| ==> s[i] == r.ptrs[i]
  }

  // ----- round trips -----

  lemma EntryBack(s: seq<long>, meta: Meta, name: seq<byte>)
    requires EntryOk(s, meta, name)
    ensures BstrAt(s, |s| - 20, 8, 30) == Some(name) && EntryMeta(s) == meta
  {
    hide Pack, BstrBytes, Unpack, BstrOf;
    BstrBack(s, |s| - 46, 20, 79, meta.comment);
    BstrBack(s, |s| - 20, 8, 30, name);
  }

  lemma PointersBack(s: seq<long>, ownKey: nat, dat: seq<nat>)
    requires |s| > 56 && PointersOk(s, ownKey, dat)
    ensures Down(s, |s| - 51, Limited(s[2], |s| - 56)) == dat
  {
  }

  lemma FileHeaderBack(s: seq<long>, r: Block)
    requires r.FileHeader? && Storable(r, |s|) && IsFileHeader(s, r)
    ensures DecodeFileHeader(s, r.ownKey) == Good(r)
  {
    hide ChksumOk, EntryOk, PointersOk, BstrAt, EntryMeta, Down, Limited;
    EntryBack(s, r.meta, r.name);
    PointersBack(s, r.ownKey, r.dataBlocks);
    OwnKeyAt(s, r.ownKey, r.dataBlocks);
  }

  lemma OwnKeyAt(s: seq<long>, ownKey: nat, dat: seq<nat>)
    requires |s| > 56 && PointersOk(s, ownKey, dat)
    ensures s[1] == ownKey
  {
  }

  lemma FileListBack(s: seq<long>, r: Block)
    requires r.FileList? && Storable(r, |s|) && IsFileList(s, r)
    ensures DecodeFileList(s, r.ownKey) == Good(r)
  {
    hide ChksumOk, PointersOk, Down, Limited;
    PointersBack(s, r.ownKey, r.dataBlocks);
    OwnKeyAt(s, r.ownKey, r.dataBlocks);
  }

  lemma FileDataBack(s: seq<long>, r: Block)
    requires r.FileData? && Storable(r, |s|) && IsFileData(s, r)
    ensures DecodeFileData(s) == Good(r)
  {
    hide ChksumOk, Pack, Unpack;
    HoldsSlice(s, 6, Pack(r.contents, |s| - 6));
    UnpackPack(r.contents, |s| - 6);
    assert s[6..6 + (|s| - 6)] == s[6..];
  }

  lemma UserDirBack(s: seq<long>, r: Block)
    requires r.UserDir? && Storable(r, |s|) && IsUserDir(s, r)
    ensures DecodeUserDir(s, r.ownKey) == Good(r)
  {
    hide ChksumOk, EntryOk, BstrAt, EntryMeta;
    EntryBack(s, r.meta, r.name);
    assert Up(s, 6, |s| - 56) == r.dirTable;
  }

  lemma RootBack(s: seq<long>, r: Block)
    requires r.Root? && Storable(r, |s|) && IsRoot(s, r)
    ensures DecodeRoot(s) == Good(r)
  {
    hide ChksumOk, Pack, BstrBytes, Unpack, BstrOf;
    BstrBack(s, |s| - 20, 8, 30, r.rootName);
    assert Up(s, 6, |s| - 56) == r.rootTable && Up(s, |s| - 49, 25) == r.bitmapPtrs;
    assert r.meta == RootMeta(r.meta) == Meta(0, [], s[|s| - 23], s[|s| - 22], s[|s| - 21]);
    assert r.diskTime == Time(s[|s| - 10], s[|s| - 9], s[|s| - 8])
      && r.createTime == Time(s[|s| - 7], s[|s| - 6], s[|s| - 5]);
  }

  lemma BitmapBack(s: seq<long>, r: Block)
    requires r.Bitmap? && Storable(r, |s|) && IsBitmap(s, r)
    ensures DecodeBitmap(s) == Good(r)
  {
    hide ChksumOk, Pack, Unpack;
    HoldsSlice(s, 1, Pack(r.bits, |s| - 1));
    UnpackPack(r.bits, |s| - 1);
    assert s[1..1 + (|s| - 1)] == s[1..];
    assert Unpack(s[1..])[..|r.bits|] == Unpack(s[1..]);
  }

  lemma BitmapExtBack(s: seq<long>, r: Block)
    requires r.BitmapExt? && Storable(r, |s|) && IsBitmapExt(s, r)
    ensures DecodeBitmapExt(s) == r
  {
    assert Up(s, 0, |s| - 1) == r.ptrs;
  }

  /** Any block. */
  ghost predicate Encodes(s: seq<long>, r: Block) {
    match r
    case Root(_, _, _, _, _, _, _, _) => IsRoot(s, r)
    case UserDir(_, _, _, _, _, _) => IsUserDir(s, r)
    case FileHeader(_, _, _, _, _, _, _, _) => IsFileHeader(s, r)
    case FileList(_, _, _, _) => IsFileList(s, r)
    case FileData(_, _, _, _) => IsFileData(s, r)
    case Bitmap(_) => IsBitmap(s, r)
    case BitmapExt(_, _) => IsBitmapExt(s, r)
    case Raw(bytes) => Unpack(s) == bytes
  }

  // ----- the layout in numbers -----

  /** A string field: a length byte, the characters, zeros. */
  ghost predicate Field(s: seq<long>, at: nat, k: nat, str: seq<byte>)
    requires at + k <= |s|
  {
    var area := Unpack(s[at..at + k]);
    |str| < |area| && area[0] == |str| && area[1..1 + |str|] == str
      && forall j :: |str| < j < |area| ==> area[j] == 0
  }

  lemma FieldExact(s: seq<long>, at: nat, k: nat, max: byte, str: seq<byte>)
    requires HoldsBstr(s, at, k, max, str) && max < 4 * k
    ensures Field(s, at, k, str)
  {
    hide Unpack, Pack;
    var b := BstrBytes(str);
    HoldsSlice(s, at, Pack(b, k));
    UnpackPack(b, k);
    var area := Unpack(s[at..at + k]);
    assert area[..|b|][0] == |str| && area[..|b|][1..] == area[1..|b|] == str;
    forall j | |str| < j < |area| ensures area[j] == 0 { PackZeros(b, k, j); }
  }

  /** Where everything is in the blocks of the two kinds of entries: types, own key, links and the hash table or
      the data pointers, which run downwards from long -51. */
  lemma EntryLayout(s: seq<long>, r: Block)
    requires (r.UserDir? || r.FileHeader?) && Encodes(s, r)
    ensures |s| > 56 && Total(s, |s|) % 0x1_0000_0000 == 0
    ensures s[0] == 2 && s[|s| - 1] == (if r.UserDir? then 2 else 0xFFFF_FFFD)
    ensures s[1] == r.ownKey && s[|s| - 4] == r.hashChain && s[|s| - 3] == r.parent
    ensures s[|s| - 2] == if r.UserDir? then 0 else r.extension
    ensures s[|s| - 48] == r.meta.protect && Field(s, |s| - 46, 20, r.meta.comment)
    ensures s[|s| - 23] == r.meta.days && s[|s| - 22] == r.meta.mins && s[|s| - 21] == r.meta.ticks
    ensures Field(s, |s| - 20, 8, r.name)
    ensures r.UserDir? ==> |r.dirTable| == |s| - 56 && forall i :: 0 <= i < |s| - 56 ==> s[6 + i] == r.dirTable[i]
    ensures r.FileHeader? ==> s[|s| - 47] == r.byteSize && s[2] == |r.dataBlocks| <= |s| - 56
    ensures r.FileHeader? ==> s[4] == if r.dataBlocks == [] then 0 else r.dataBlocks[0]
    ensures r.FileHeader? ==> forall i :: 0 <= i < |r.dataBlocks| ==> s[|s| - 51 - i] == r.dataBlocks[i]
  {
    hide ChksumOk, HoldsBstr, Field;
    ChksumIsZeroSum(s, CHK_LOC);
    FieldExact(s, |s| - 46, 20, 79, r.meta.comment);
    FieldExact(s, |s| - 20, 8, 30, r.name);
  }

  /** The same for the other blocks of a file. */
  lemma FileLayoutExact(s: seq<long>, r: Block)
    requires (r.FileList? || r.FileData?) && Encodes(s, r) && Storable(r, |s|)
    ensures |s| > 56 && Total(s, |s|) % 0x1_0000_0000 == 0
    ensures r.FileList? ==> s[0] == 16 && s[|s| - 1] == 0xFFFF_FFFD
    ensures r.FileList? ==> s[1] == r.ownKey && s[|s| - 3] == r.parent && s[|s| - 2] == r.extension
    ensures r.FileList? ==> s[2] == |r.dataBlocks| <= |s| - 56
    ensures r.FileList? ==> forall i :: 0 <= i < |r.dataBlocks| ==> s[|s| - 51 - i] == r.dataBlocks[i]
    ensures r.FileData? ==> s[0] == 8 && s[1] == r.hdrKey && s[2] == r.seqNum && s[4] == r.nextData
    ensures r.FileData? ==> s[3] == |r.contents| <= 4 * (|s| - 6) && Unpack(s[6..])[..|r.contents|] == r.contents
  {
    hide ChksumOk, Unpack, Pack;
    ChksumIsZeroSum(s, CHK_LOC);
    if r.FileData? {
      HoldsSlice(s, 6, Pack(r.contents, |s| - 6));
      UnpackPack(r.contents, |s| - 6);
      assert s[6..6 + (|s| - 6)] == s[6..];
    }
  }

  /** The same for the root block and the bitmap blocks. */
  lemma VolumeLayout(s: seq<long>, r: Block)
    requires (r.Root? || r.Bitmap? || r.BitmapExt?) && Encodes(s, r) && Storable(r, |s|)
    ensures |s| > 56 && (!r.BitmapExt? ==> Total(s, |s|) % 0x1_0000_0000 == 0)
    ensures r.Root? ==> s[0] == 2 && s[|s| - 1] == 1 && s[3] == |r.rootTable| == |s| - 56
    ensures r.Root? ==> forall i :: 0 <= i < |s| - 56 ==> s[6 + i] == r.rootTable[i]
    ensures r.Root? ==> |r.bitmapPtrs| == 25 && forall i :: 0 <= i < 25 ==> s[|s| - 49 + i] == r.bitmapPtrs[i]
    ensures r.Root? ==> s[|s| - 50] == 0xFFFF_FFFF && s[|s| - 24] == r.bitmapExt && Field(s, |s| - 20, 8, r.rootName)
    ensures r.Root? ==> s[|s| - 23] == r.meta.days && s[|s| - 22] == r.meta.mins && s[|s| - 21] == r.meta.ticks
    ensures r.Root? ==> s[|s| - 10] == r.diskTime.days && s[|s| - 9] == r.diskTime.mins
    ensures r.Root? ==> s[|s| - 8] == r.diskTime.ticks && s[|s| - 7] == r.createTime.days
    ensures r.Root? ==> s[|s| - 6] == r.createTime.mins && s[|s| - 5] == r.createTime.ticks && s[|s| - 4] == r.fsType
    ensures r.Bitmap? ==> Unpack(s[1..]) == r.bits
    ensures r.BitmapExt? ==> |r.ptrs| == |s| - 1 && s[|s| - 1] == r.next
    ensures r.BitmapExt? ==> forall i :: 0 <= i < |s| - 1 ==> s[i] == r.ptrs[i]
  {
    hide ChksumOk, Unpack, Pack, HoldsBstr, Field;
    if r.Root? {
      ChksumIsZeroSum(s, CHK_LOC);
      FieldExact(s, |s| - 20, 8, 30, r.rootName);
    } else if r.Bitmap? {
      ChksumIsZeroSum(s, 0);
      HoldsSlice(s, 1, Pack(r.bits, |s| - 1));
      UnpackPack(r.bits, |s| - 1);
      assert s[1..1 + (|s| - 1)] == s[1..];
      assert Unpack(s[1..])[..|r.bits|] == Unpack(s[1..]);
    }
  }

  /** Reading block `num` as the kind of block `r` is. */
  function DecodeAs(r: Block, s: seq<long>, num: nat): Decoded
    requires |s| > 56
  {
    match r
    case Root(_, _, _, _, _, _, _, _) => DecodeRoot(s)
    case UserDir(_, _, _, _, _, _) => DecodeUserDir(s, num)
    case FileHeader(_, _, _, _, _, _, _, _) => DecodeFileHeader(s, num)
    case FileList(_, _, _, _) => DecodeFileList(s, num)
    case FileData(_, _, _, _) => DecodeFileData(s)
    case Bitmap(_) => DecodeBitmap(s)
    case BitmapExt(_, _) => Good(DecodeBitmapExt(s))
    case Raw(_) => Good(Raw(Unpack(s)))
  }

  // ----- what reading finds in any block -----

  /** A block is refused exactly for a type, a sub type, a sum of its longs or an own key that is not right. */
  lemma InvalidExact(s: seq<long>, num: nat)
    requires |s| > 56
    ensures var sum, last := Total(s, |s|) % 0x1_0000_0000, s[|s| - 1];
      && (DecodeFileHeader(s, num) != Invalid <==> sum == 0 && s[0] == 2 && last == 0xFFFF_FFFD && s[1] == num)
      && (DecodeUserDir(s, num) != Invalid <==> sum == 0 && s[0] == 2 && last == 2 && s[1] == num)
      && (DecodeRoot(s) != Invalid <==> sum == 0 && s[0] == 2 && last == 1)
      && (DecodeFileList(s, num) != Invalid <==> sum == 0 && s[0] == 16 && last == 0xFFFF_FFFD && s[1] == num)
      && (DecodeFileData(s) != Invalid <==> sum == 0 && s[0] == 8)
      && (DecodeBitmap(s) != Invalid <==> sum == 0)
      && (DecodeEntry(s, num) != Invalid <==>
        sum == 0 && s[0] == 2 && (last == 2 || last == 0xFFFF_FFFD) && s[1] == num)
  {
    hide ChksumOk, BstrOf, Unpack;
    ChksumIsZeroSum(s, CHK_LOC);
    ChksumIsZeroSum(s, 0);
  }

  /** The string in a field of `k` longs: its first byte counts the characters, more than `max` are no string. */
  lemma BstrReads(s: seq<long>, at: nat, k: nat, max: byte)
    requires at + k <= |s| && max < 4 * k
    ensures var area := Unpack(s[at..at + k]);
      BstrAt(s, at, k, max) == if area[0] > max then None else Some(area[1..1 + area[0]])
  {
  }

  /** What an entry's block is read as, field by field; stored counts above the room are cut to it. */
  lemma EntryReads(s: seq<long>, num: nat)
    requires |s| > 56 && DecodeEntry(s, num) != Invalid
    ensures var (b, n, name) := (DecodeEntry(s, num).block, |s|, BstrAt(s, |s| - 20, 8, 30));
      && (b.UserDir? || b.FileHeader?) && (b.UserDir? <==> s[n - 1] == 2)
      && (DecodeEntry(s, num).NoName? <==> name.None?)
      && b.name == name.UnwrapOr([]) && b.ownKey == num && b.hashChain == s[n - 4] && b.parent == s[n - 3]
      && b.meta.protect == s[n - 48] && b.meta.comment == BstrAt(s, n - 46, 20, 79).UnwrapOr([])
      && b.meta.days == s[n - 23] && b.meta.mins == s[n - 22] && b.meta.ticks == s[n - 21]
      && (b.UserDir? ==> |b.dirTable| == n - 56 && forall i :: 0 <= i < n - 56 ==> b.dirTable[i] == s[6 + i])
      && (b.FileHeader? ==> b.byteSize == s[n - 47] && b.extension == s[n - 2])
      && (b.FileHeader? ==> |b.dataBlocks| == if s[2] <= n - 56 then s[2] else n - 56)
      && (b.FileHeader? ==> forall i :: 0 <= i < |b.dataBlocks| ==> b.dataBlocks[i] == s[n - 51 - i])
  {
    hide ChksumOk, BstrOf, Unpack;
  }

  /** The same for list and data blocks. */
  lemma BodyReads(s: seq<long>, num: nat)
    requires |s| > 56
    ensures DecodeFileList(s, num) != Invalid ==> var (b, n) := (DecodeFileList(s, num).block, |s|);
      && b.FileList? && b.ownKey == num && b.parent == s[n - 3] && b.extension == s[n - 2]
      && |b.dataBlocks| == (if s[2] <= n - 56 then s[2] else n - 56)
      && forall i :: 0 <= i < |b.dataBlocks| ==> b.dataBlocks[i] == s[n - 51 - i]
    ensures DecodeFileData(s) != Invalid ==> var (b, body) := (DecodeFileData(s).block, Unpack(s[6..]));
      && b.FileData? && b.hdrKey == s[1] && b.seqNum == s[2] && b.nextData == s[4]
      && b.contents == if s[3] <= |body| then body[..s[3]] else body
  {
    hide ChksumOk;
    var body := Unpack(s[6..]);
    assert body[..|body|] == body;
  }

  /** The same for the root block. */
  lemma RootReads(s: seq<long>)
    requires |s| > 56 && DecodeRoot(s) != Invalid
    ensures var (b, n, name) := (DecodeRoot(s).block, |s|, BstrAt(s, |s| - 20, 8, 30));
      && b.Root? && (DecodeRoot(s).NoName? <==> name.None?) && b.rootName == name.UnwrapOr([])
      && |b.rootTable| == (if s[3] <= n - 56 then s[3] else n - 56) && b.bitmapExt == s[n - 24]
      && (forall i :: 0 <= i < |b.rootTable| ==> b.rootTable[i] == s[6 + i])
      && |b.bitmapPtrs| == 25 && (forall i :: 0 <= i < 25 ==> b.bitmapPtrs[i] == s[n - 49 + i])
      && b.meta == Meta(0, [], s[n - 23], s[n - 22], s[n - 21]) && b.diskTime == Time(s[n - 10], s[n - 9], s[n - 8])
      && b.createTime == Time(s[n - 7], s[n - 6], s[n - 5]) && b.fsType == s[n - 4]
  {
    hide ChksumOk, BstrOf, Unpack;
  }

  /** Every record the device accepts comes back from the longs of its block. */
  lemma AnyBack(s: seq<long>, r: Block, num: nat)
    requires Storable(r, |s|) && KeyOk(num, r) && Encodes(s, r)
    ensures DecodeAs(r, s, num) == Good(r)
  {
    hide Storable, IsRoot, IsUserDir, IsFileHeader, IsFileList, IsFileData, IsBitmap, IsBitmapExt, Unpack;
    hide DecodeRoot, DecodeUserDir, DecodeFileHeader, DecodeFileList, DecodeFileData, DecodeBitmap, DecodeBitmapExt;
    match r
    case Root(_, _, _, _, _, _, _, _) => RootBack(s, r);
    case UserDir(_, _, _, _, _, _) => UserDirBack(s, r);
    case FileHeader(_, _, _, _, _, _, _, _) => FileHeaderBack(s, r);
    case FileList(_, _, _, _) => FileListBack(s, r);
    case FileData(_, _, _, _) => FileDataBack(s, r);
    case Bitmap(_) => BitmapBack(s, r);
    case BitmapExt(_, _) => BitmapExtBack(s, r);
    case Raw(_) =>
  }

  /** A directory entry as `ADFSDir.read` meets it: the kind is in the block's types. */
  function DecodeEntry(s: seq<long>, num: nat): Decoded
    requires |s| > 56
  {
    if !ChksumOk(s, CHK_LOC) || s[0] != T_SHORT then Invalid
    else if s[|s| - 1] == ST_USERDIR then DecodeUserDir(s, num)
    else if s[|s| - 1] == ST_FILE then DecodeFileHeader(s, num)
    else Invalid
  }

  lemma DirEntryBack(s: seq<long>, r: Block, num: nat)
    requires (r.UserDir? || r.FileHeader?) && Storable(r, |s|) && KeyOk(num, r) && Encodes(s, r)
    ensures DecodeEntry(s, num) == Good(r)
  {
    hide Storable, DecodeUserDir, DecodeFileHeader, ChksumOk, EntryOk, PointersOk, LinksOk;
    AnyBack(s, r, num);
  }

  /** A single changed long in the header block of an entry is noticed when its directory is read. */
  lemma DamageNoticed(s: seq<long>, r: Block, num: nat, i: nat, val: long)
    requires (r.UserDir? || r.FileHeader?) && Encodes(s, r) && i < |s| && val != s[i]
    ensures |s| > 56 && DecodeEntry(s[i := val], num) == Invalid
  {
    hide ChksumOk, EntryOk, PointersOk, LinksOk, DecodeUserDir, DecodeFileHeader;
    OneLongDetected(s, CHK_LOC, i, val);
  }

  /** Write a record into a fresh block. */
  method Encode(r: Block, n: nat) returns (s: seq<long>)
    requires Storable(r, n)
    ensures |s| == n && Encodes(s, r)
  {
    hide IsRoot, IsUserDir, IsFileHeader, IsFileList, IsFileData, IsBitmap, IsBitmapExt, Trimmed;
    TrimmedIff(r, n);
    var buf := new Buffer(n);
    match r {
      case Root(_, _, _, _, _, _, _, _) => var ok := buf.WriteRoot(r);
      case UserDir(_, _, _, _, _, _) => var ok := buf.WriteUserDir(r);
      case FileHeader(_, _, _, _, _, _, _, _) => var ok := buf.WriteFileHeader(r);
      case FileList(_, _, _, _) => buf.WriteFileList(r);
      case FileData(_, _, _, _) => buf.WriteFileData(r);
      case Bitmap(_) => buf.WriteBitmap(r);
      case BitmapExt(_, _) => buf.WriteBitmapExt(r);
      case Raw(bytes) =>
        buf.PutUp(0, Pack(bytes, n));
        UnpackPack(bytes, n);
        assert buf.longs[..] == Pack(bytes, n);
        assert Unpack(Pack(bytes, n))[..|bytes|] == Unpack(Pack(bytes, n));
    }
    s := buf.longs[..];
  }
}
