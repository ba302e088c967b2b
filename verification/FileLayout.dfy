/** `ADFSFile`: how the bytes of a file are spread over a header block, a chain of list blocks and
    data blocks, and how they are found again. */
module FileLayout {
  import opened Bytes
  import Seqs
  import opened Device

  // ----- cutting a sequence into pieces -----

  /** Where piece `k` starts. */
  function Cut<T>(s: seq<T>, size: nat, k: nat): (n: nat)
    ensures n <= |s|
  {
    if Times(k, size) < |s| then Times(k, size) else |s|
  }

  function Piece<T>(s: seq<T>, size: nat, k: nat): (r: seq<T>)
    ensures |r| <= size
  {
    s[Cut(s, size, k)..Cut(s, size, k + 1)]
  }

  lemma LastCut<T>(s: seq<T>, size: nat)
    requires size > 0
    ensures Cut(s, size, CeilDiv(|s|, size)) == |s|
  {
    CeilDivBounds(|s|, size);
    TimesIsProduct(CeilDiv(|s|, size), size);
  }

  /** Every piece but the last is full. */
  lemma FullCut<T>(s: seq<T>, size: nat, k: nat)
    requires size > 0 && k < CeilDiv(|s|, size)
    ensures Cut(s, size, k) == Times(k, size) < |s|
  {
    CeilDivBounds(|s|, size);
    TimesIsProduct(CeilDiv(|s|, size), size);
    TimesLe(k + 1, CeilDiv(|s|, size), size);
  }

  // ----- block counts -----

  function DataPerBlock(g: Geometry, ffs: bool): (n: nat)
    requires g.Valid()
    ensures n > 0
  {
    if ffs then g.BlockBytes() else g.BlockBytes() - 24
  }

  /** Pointers per file header or file list block. */
  function Ppb(g: Geometry): (n: nat)
    requires g.Valid()
    ensures n > 0
  {
    g.blockLongs - 56
  }

  /** `calc_number_of_data_blks`. */
  function NumData(g: Geometry, ffs: bool, size: nat): nat
    requires g.Valid()
  {
    CeilDiv(size, DataPerBlock(g, ffs))
  }

  /** `calc_number_of_list_blks`. */
  function NumList(g: Geometry, ffs: bool, size: nat): nat
    requires g.Valid()
  {
    var db := NumData(g, ffs, size);
    if db <= Ppb(g) then 0 else CeilDiv(db - Ppb(g), Ppb(g))
  }

  /** `blocks_get_create_num`. */
  function NumBlocks(g: Geometry, ffs: bool, size: nat): nat
    requires g.Valid()
  {
    1 + NumData(g, ffs, size) + NumList(g, ffs, size)
  }

  /** Header and list blocks together hold exactly one piece each of the data block list. */
  lemma ListPieces(g: Geometry, ffs: bool, size: nat)
    requires g.Valid()
    ensures var db := NumData(g, ffs, size);
      db <= Ppb(g) + Times(NumList(g, ffs, size), Ppb(g))
      && (db > Ppb(g) ==> CeilDiv(db, Ppb(g)) == 1 + NumList(g, ffs, size))
  {
    var db := NumData(g, ffs, size);
    if db > Ppb(g) {
      CeilDivBounds(db - Ppb(g), Ppb(g));
      TimesIsProduct(NumList(g, ffs, size), Ppb(g));
    }
  }

  // ----- the blocks of a file -----

  function At(s: seq<nat>, i: nat): nat { if i < |s| then s[i] else 0 }

  function ListRec(g: Geometry, hdr: nat, ext: seq<nat>, dat: seq<nat>, i: nat): Block
    requires g.Valid() && i < |ext|
  {
    FileList(ext[i], hdr, Piece(dat, Ppb(g), i + 1), At(ext, i + 1))
  }

  function DataRec(g: Geometry, ffs: bool, hdr: nat, dat: seq<nat>, data: seq<byte>, i: nat): Block
    requires g.Valid()
  {
    var bs := DataPerBlock(g, ffs);
    var d := Piece(data, bs, i);
    if ffs then Raw(d + ZeroBytes(bs - |d|)) else FileData(hdr, i + 1, At(dat, i + 1), d)
  }

  ghost predicate HeaderOk(g: Geometry, blk: Block, hdr: nat, ext: seq<nat>, dat: seq<nat>, size: nat)
    requires g.Valid()
  {
    && blk.FileHeader? && blk.ownKey == hdr && blk.byteSize == size
    && blk.dataBlocks == Piece(dat, Ppb(g), 0) && blk.extension == At(ext, 0)
  }

  ghost predicate CountsOk(g: Geometry, ffs: bool, ext: seq<nat>, dat: seq<nat>, size: nat)
    requires g.Valid()
  {
    |dat| == NumData(g, ffs, size) && |ext| == NumList(g, ffs, size)
  }

  predicate Landed(disk: map<nat, Block>, b: nat, blk: Block) { b in disk && disk[b] == blk }

  ghost predicate ListsOnDisk(g: Geometry, disk: map<nat, Block>, hdr: nat, ext: seq<nat>, dat: seq<nat>, n: nat)
    requires g.Valid() && n <= |ext|
  {
    forall i {:trigger ListRec(g, hdr, ext, dat, i)} ::
      0 <= i < n ==> Landed(disk, ext[i], ListRec(g, hdr, ext, dat, i))
  }

  ghost predicate DataOnDisk(g: Geometry, ffs: bool, disk: map<nat, Block>, hdr: nat, dat: seq<nat>,
                             data: seq<byte>, n: nat)
    requires g.Valid() && n <= |dat|
  {
    forall i {:trigger DataRec(g, ffs, hdr, dat, data, i)} ::
      0 <= i < n ==> Landed(disk, dat[i], DataRec(g, ffs, hdr, dat, data, i))
  }

  /** The list and data blocks of the file with bytes `data`. */
  ghost predicate BodyOnDisk(g: Geometry, ffs: bool, disk: map<nat, Block>, hdr: nat,
                             ext: seq<nat>, dat: seq<nat>, data: seq<byte>)
    requires g.Valid()
  {
    && CountsOk(g, ffs, ext, dat, |data|)
    && ListsOnDisk(g, disk, hdr, ext, dat, |ext|)
    && DataOnDisk(g, ffs, disk, hdr, dat, data, |dat|)
  }

  /** `get_block_nums`: header, list and data blocks. */
  function FileBlocks(hdr: nat, ext: seq<nat>, dat: seq<nat>): seq<nat> { [hdr] + ext + dat }

  /** A file does not notice writes to other blocks. */
  lemma BodyFrame(g: Geometry, ffs: bool, disk: map<nat, Block>, disk': map<nat, Block>, hdr: nat,
                  ext: seq<nat>, dat: seq<nat>, data: seq<byte>)
    requires g.Valid() && BodyOnDisk(g, ffs, disk, hdr, ext, dat, data)
    requires forall b :: b in ext || b in dat ==> b in disk && b in disk' && disk'[b] == disk[b]
    ensures BodyOnDisk(g, ffs, disk', hdr, ext, dat, data)
  {
  }

  // ----- the layout in numbers -----

  /** A data block holds all its bytes (FFS) or all but 24 of them (OFS), header and list blocks have 56 longs
      less than the block for pointers, and there are as few data and list blocks as this allows. */
  lemma CountsExact(g: Geometry, ffs: bool, ext: seq<nat>, dat: seq<nat>, size: nat)
    requires g.Valid()
    ensures var bs, ppb := 4 * g.blockLongs - (if ffs then 0 else 24), g.blockLongs - 56;
      CountsOk(g, ffs, ext, dat, size) <==>
        && size <= |dat| * bs < size + bs
        && (if |dat| <= ppb then |ext| == 0 else |dat| <= ppb + |ext| * ppb < |dat| + ppb)
    ensures CountsOk(g, ffs, ext, dat, size) ==> NumBlocks(g, ffs, size) == 1 + |ext| + |dat|
  {
    CeilDivExact(size, DataPerBlock(g, ffs), |dat|);
    if |dat| > Ppb(g) { CeilDivExact(|dat| - Ppb(g), Ppb(g), |ext|); }
  }

  /** The header block names itself, the size, the first data blocks and the first list block. */
  lemma HeaderExact(g: Geometry, blk: Block, hdr: nat, ext: seq<nat>, dat: seq<nat>, size: nat)
    requires g.Valid()
    ensures var ppb := g.blockLongs - 56;
      HeaderOk(g, blk, hdr, ext, dat, size) <==>
        && blk.FileHeader? && blk.ownKey == hdr && blk.byteSize == size
        && blk.dataBlocks == (if |dat| <= ppb then dat else dat[..ppb])
        && blk.extension == (if |ext| > 0 then ext[0] else 0)
  {
    assert Times(1, Ppb(g)) == Ppb(g) && Times(0, Ppb(g)) == 0;
    assert dat[..|dat|] == dat;
  }

  /** List block `i` names itself, the header, the next data blocks after those of the blocks before it, and
      the next list block. */
  lemma ListExact(g: Geometry, ffs: bool, disk: map<nat, Block>, hdr: nat, ext: seq<nat>, dat: seq<nat>,
                  data: seq<byte>, i: nat)
    requires g.Valid() && BodyOnDisk(g, ffs, disk, hdr, ext, dat, data) && i < |ext|
    ensures var ppb := g.blockLongs - 56;
      var lo := (i + 1) * ppb;
      && lo < |dat| && (i + 1 < |ext| ==> lo + ppb < |dat|) && ext[i] in disk
      && disk[ext[i]] == FileList(ext[i], hdr, dat[lo..if lo + ppb <= |dat| then lo + ppb else |dat|],
                                  if i + 1 < |ext| then ext[i + 1] else 0)
  {
    assert Landed(disk, ext[i], ListRec(g, hdr, ext, dat, i));
    ListPieces(g, ffs, |data|);
    PieceAt(dat, Ppb(g), i + 1);
    TimesIsProduct(i + 1, Ppb(g));
  }

  /** Data block `i` has the bytes after those of the blocks before it: on an FFS volume nothing else but zeros
      up to the end of the block, on an OFS volume with the header, the number from 1 and the next data block. */
  lemma DataExact(g: Geometry, ffs: bool, disk: map<nat, Block>, hdr: nat, ext: seq<nat>, dat: seq<nat>,
                  data: seq<byte>, i: nat)
    requires g.Valid() && BodyOnDisk(g, ffs, disk, hdr, ext, dat, data) && i < |dat|
    ensures var bs := 4 * g.blockLongs - (if ffs then 0 else 24);
      var lo := i * bs;
      && lo < |data| && (i + 1 < |dat| ==> lo + bs < |data|) && dat[i] in disk
      && (!ffs ==> disk[dat[i]] == FileData(hdr, i + 1, if i + 1 < |dat| then dat[i + 1] else 0,
                                            data[lo..if lo + bs <= |data| then lo + bs else |data|]))
      && (ffs ==> disk[dat[i]].Raw? && |disk[dat[i]].bytes| == 4 * g.blockLongs)
      && (ffs ==> forall k :: 0 <= k < bs ==> disk[dat[i]].bytes[k] == if lo + k < |data| then data[lo + k] else 0)
  {
    assert Landed(disk, dat[i], DataRec(g, ffs, hdr, dat, data, i));
    PieceAt(data, DataPerBlock(g, ffs), i);
    TimesIsProduct(i, DataPerBlock(g, ffs));
  }

  // ----- creating the blocks -----

  /** The device after the first `n` list blocks are written. */
  function WroteLists(g: Geometry, disk: map<nat, Block>, hdr: nat, ext: seq<nat>, dat: seq<nat>,
          n: nat): map<nat, Block>
    requires g.Valid() && n <= |ext|
  {
    if n == 0 then disk else
      WroteLists(g, disk, hdr, ext, dat, n - 1)[ext[n - 1] := ListRec(g, hdr, ext, dat, n - 1)]
  }

  /** The device after the first `n` data blocks are written. */
  function WroteData(g: Geometry, ffs: bool, disk: map<nat, Block>, hdr: nat, dat: seq<nat>,
                     data: seq<byte>, n: nat): map<nat, Block>
    requires g.Valid() && n <= |dat|
  {
    if n == 0 then disk else
      WroteData(g, ffs, disk, hdr, dat, data, n - 1)[dat[n - 1] := DataRec(g, ffs, hdr, dat, data, n - 1)]
  }

  /** The device after `blocks_create_new`: header first, then list blocks, then data blocks. */
  function WroteFile(g: Geometry, ffs: bool, disk: map<nat, Block>, header: Block, hdr: nat,
                     ext: seq<nat>, dat: seq<nat>, data: seq<byte>): map<nat, Block>
    requires g.Valid()
  {
    WroteData(g, ffs, WroteLists(g, disk[hdr := header], hdr, ext, dat, |ext|), hdr, dat, data, |dat|)
  }

  function HeaderRec(g: Geometry, hdr: nat, parent: nat, name: seq<byte>, hashChain: nat, size: nat,
                     ext: seq<nat>, dat: seq<nat>, meta: Meta): Block
    requires g.Valid()
  {
    FileHeader(hdr, parent, name, hashChain, size, Piece(dat, Ppb(g), 0), At(ext, 0), meta)
  }

  lemma {:induction false} WroteListsAt(g: Geometry, disk: map<nat, Block>, hdr: nat, ext: seq<nat>,
                                        dat: seq<nat>, n: nat, i: nat)
    requires g.Valid() && i < n <= |ext| && Seqs.Distinct(ext)
    ensures var r := WroteLists(g, disk, hdr, ext, dat, n);
      ext[i] in r && r[ext[i]] == ListRec(g, hdr, ext, dat, i)
  {
    assert i < n - 1 ==> ext[i] != ext[n - 1];
    if i < n - 1 {
      WroteListsAt(g, disk, hdr, ext, dat, n - 1, i);
    }
  }

  lemma {:induction false} WroteListsElse(g: Geometry, disk: map<nat, Block>, hdr: nat, ext: seq<nat>,
                                          dat: seq<nat>, n: nat, b: nat)
    requires g.Valid() && n <= |ext| && b !in ext
    ensures var r := WroteLists(g, disk, hdr, ext, dat, n);
      (b in r <==> b in disk) && (b in disk ==> r[b] == disk[b])
  {
    if n > 0 {
      WroteListsElse(g, disk, hdr, ext, dat, n - 1, b);
    }
  }

  lemma {:induction false} WroteDataAt(g: Geometry, ffs: bool, disk: map<nat, Block>, hdr: nat, dat: seq<nat>,
                                       data: seq<byte>, n: nat, i: nat)
    requires g.Valid() && i < n <= |dat| && Seqs.Distinct(dat)
    ensures var r := WroteData(g, ffs, disk, hdr, dat, data, n);
      dat[i] in r && r[dat[i]] == DataRec(g, ffs, hdr, dat, data, i)
  {
    assert i < n - 1 ==> dat[i] != dat[n - 1];
    if i < n - 1 {
      WroteDataAt(g, ffs, disk, hdr, dat, data, n - 1, i);
    }
  }

  lemma {:induction false} WroteDataElse(g: Geometry, ffs: bool, disk: map<nat, Block>, hdr: nat, dat: seq<nat>,
                                         data: seq<byte>, n: nat, b: nat)
    requires g.Valid() && n <= |dat| && b !in dat
    ensures var r := WroteData(g, ffs, disk, hdr, dat, data, n);
      (b in r <==> b in disk) && (b in disk ==> r[b] == disk[b])
  {
    if n > 0 {
      WroteDataElse(g, ffs, disk, hdr, dat, data, n - 1, b);
    }
  }

  /** What `blocks_create_new` leaves behind: the header and the whole body of the file ... */
  lemma WroteFileOk(g: Geometry, ffs: bool, disk: map<nat, Block>, header: Block, hdr: nat,
                    ext: seq<nat>, dat: seq<nat>, data: seq<byte>)
    requires g.Valid() && Seqs.Distinct(FileBlocks(hdr, ext, dat)) && CountsOk(g, ffs, ext, dat, |data|)
    ensures var r := WroteFile(g, ffs, disk, header, hdr, ext, dat, data);
      BodyOnDisk(g, ffs, r, hdr, ext, dat, data) && hdr in r && r[hdr] == header
  {
    SplitDistinct(hdr, ext, dat);
    var d0 := disk[hdr := header];
    var d1 := WroteLists(g, d0, hdr, ext, dat, |ext|);
    WroteListsElse(g, d0, hdr, ext, dat, |ext|, hdr);
    WroteDataElse(g, ffs, d1, hdr, dat, data, |dat|, hdr);
    forall i | 0 <= i < |ext|
      ensures Landed(WroteFile(g, ffs, disk, header, hdr, ext, dat, data), ext[i], ListRec(g, hdr, ext, dat, i))
    {
      WroteListsAt(g, d0, hdr, ext, dat, |ext|, i);
      WroteDataElse(g, ffs, d1, hdr, dat, data, |dat|, ext[i]);
    }
    forall i | 0 <= i < |dat|
      ensures Landed(WroteFile(g, ffs, disk, header, hdr, ext, dat, data), dat[i], DataRec(g, ffs, hdr, dat, data, i))
    {
      WroteDataAt(g, ffs, d1, hdr, dat, data, |dat|, i);
    }
  }

  /** ... and nothing else changed. */
  lemma WroteFileElse(g: Geometry, ffs: bool, disk: map<nat, Block>, header: Block, hdr: nat,
                      ext: seq<nat>, dat: seq<nat>, data: seq<byte>, b: nat)
    requires g.Valid() && b !in FileBlocks(hdr, ext, dat)
    ensures var r := WroteFile(g, ffs, disk, header, hdr, ext, dat, data);
      (b in r <==> b in disk) && (b in disk ==> r[b] == disk[b])
  {
    var d0 := disk[hdr := header];
    WroteListsElse(g, d0, hdr, ext, dat, |ext|, b);
    WroteDataElse(g, ffs, WroteLists(g, d0, hdr, ext, dat, |ext|), hdr, dat, data, |dat|, b);
  }

  lemma SplitDistinct(hdr: nat, ext: seq<nat>, dat: seq<nat>)
    requires Seqs.Distinct(FileBlocks(hdr, ext, dat))
    ensures Seqs.Distinct(ext) && Seqs.Distinct(dat) && hdr !in ext && hdr !in dat
    ensures forall b :: b in ext ==> b !in dat
  {
    var all := FileBlocks(hdr, ext, dat);
    assert all[0] == hdr;
    assert forall i :: 0 <= i < |ext| ==> ext[i] == all[1 + i];
    assert forall i :: 0 <= i < |dat| ==> dat[i] == all[1 + |ext| + i];
  }

  lemma PieceAt<T>(s: seq<T>, size: nat, k: nat)
    requires size > 0 && k < CeilDiv(|s|, size)
    ensures var off := Times(k, size);
      && off < |s|
      && Piece(s, size, k) == s[off..if |s| - off > size then off + size else |s|]
      && (k + 1 < CeilDiv(|s|, size) ==> off + size < |s|)
      && (k + 1 == CeilDiv(|s|, size) ==> off + size >= |s|)
  {
    FullCut(s, size, k);
    LastCut(s, size);
    if k + 1 < CeilDiv(|s|, size) {
      FullCut(s, size, k + 1);
    }
  }

  lemma PieceLongs(s: seq<nat>, size: nat, k: nat)
    requires AreLongs(s)
    ensures AreLongs(Piece(s, size, k))
  {
    TimesLe(k, k + 1, size);
  }

  lemma ListRecFits(g: Geometry, hdr: nat, ext: seq<nat>, dat: seq<nat>, i: nat)
    requires g.Valid() && i < |ext| && hdr < 0x1_0000_0000 && AreLongs(ext) && AreLongs(dat)
    ensures Storable(ListRec(g, hdr, ext, dat, i), g.blockLongs)
  {
    hide Piece;
    PieceLongs(dat, Ppb(g), i + 1);
  }

  lemma ListRecIs(g: Geometry, hdr: nat, ext: seq<nat>, dat: seq<nat>, i: nat, blks: seq<nat>, next: nat)
    requires g.Valid() && i < |ext| && blks == Piece(dat, Ppb(g), i + 1)
    requires next == if i == |ext| - 1 then 0 else ext[i + 1]
    ensures ListRec(g, hdr, ext, dat, i) == FileList(ext[i], hdr, blks, next)
  {
  }

  lemma DataRecIs(g: Geometry, ffs: bool, hdr: nat, dat: seq<nat>, data: seq<byte>, i: nat, d: seq<byte>, next: nat)
    requires g.Valid() && i < |dat| && d == Piece(data, DataPerBlock(g, ffs), i)
    requires next == if i == |dat| - 1 then 0 else dat[i + 1]
    ensures DataRec(g, ffs, hdr, dat, data, i)
      == if ffs then Raw(d + ZeroBytes(DataPerBlock(g, ffs) - |d|)) else FileData(hdr, i + 1, next, d)
  {
  }

  lemma DataRecFits(g: Geometry, ffs: bool, hdr: nat, dat: seq<nat>, data: seq<byte>, i: nat)
    requires g.Valid() && i < |dat| && hdr < 0x1_0000_0000 && AreLongs(dat) && |dat| < 0x1_0000_0000
    ensures Storable(DataRec(g, ffs, hdr, dat, data, i), g.blockLongs)
  {
    hide Piece;
  }

  lemma HeaderRecFits(g: Geometry, hdr: nat, parent: nat, name: seq<byte>, hashChain: nat, size: nat,
                      ext: seq<nat>, dat: seq<nat>, meta: Meta)
    requires g.Valid() && hdr < 0x1_0000_0000 && parent < 0x1_0000_0000 && hashChain < 0x1_0000_0000
    requires AreLongs(ext) && AreLongs(dat)
    ensures Writable(HeaderRec(g, hdr, parent, name, hashChain, size, ext, dat, meta), g.blockLongs)
      <==> HeaderFits(name, size, meta)
  {
    hide Piece;
    PieceLongs(dat, Ppb(g), 0);
  }

  /** The header block of a new file can be written: `_put_bstr` and `struct` raise otherwise. */
  predicate HeaderFits(name: seq<byte>, size: nat, meta: Meta) {
    |name| < 256 && |meta.comment| < 256 && size < 0x1_0000_0000
  }

  /** `create file list (=ext) blocks`. */
  method WriteLists(dev: BlockDevice, ffs: bool, hdr: nat, ext: seq<nat>, dat: seq<nat>, ghost size: nat)
    requires dev.g.Valid() && CountsOk(dev.g, ffs, ext, dat, size)
    requires dev.Sound() && hdr < 0x1_0000_0000 && AreLongs(ext) && AreLongs(dat)
    modifies dev
    ensures dev.Sound() && dev.blks == WroteLists(dev.g, old(dev.blks), hdr, ext, dat, |ext|)
  {
    hide Storable, ListRec;
    var ppb := Ppb(dev.g);
    ListPieces(dev.g, ffs, size);
    var extOff := ppb;
    for i := 0 to |ext|
      invariant dev.Sound() && extOff == Times(i + 1, ppb)
      invariant dev.blks == WroteLists(dev.g, old(dev.blks), hdr, ext, dat, i)
    {
      PieceAt(dat, ppb, i + 1);
      var extBlk, blks;
      if i == |ext| - 1 {
        extBlk := 0;
        blks := dat[extOff..];
      } else {
        extBlk := ext[i + 1];
        blks := dat[extOff..extOff + ppb];
      }
      assert blks == Piece(dat, ppb, i + 1);
      ListRecFits(dev.g, hdr, ext, dat, i);
      ListRecIs(dev.g, hdr, ext, dat, i, blks, extBlk);
      dev.WriteBlock(ext[i], FileList(ext[i], hdr, blks, extBlk));
      extOff := extOff + ppb;
    }
  }

  /** `write`: the data blocks. */
  method WriteData(dev: BlockDevice, ffs: bool, hdr: nat, dat: seq<nat>, data: seq<byte>)
    requires dev.g.Valid() && |dat| == NumData(dev.g, ffs, |data|)
    requires dev.Sound() && hdr < 0x1_0000_0000 && AreLongs(dat) && |data| < 0x1_0000_0000
    modifies dev
    ensures dev.Sound() && dev.blks == WroteData(dev.g, ffs, old(dev.blks), hdr, dat, data, |dat|)
  {
    hide Storable, DataRec;
    var off: nat, left: int, blkIdx: nat := 0, |data|, 0;
    var bs := DataPerBlock(dev.g, ffs);
    DataCountBound(dev.g, ffs, |data|);
    while off < |data|
      invariant dev.Sound() && blkIdx <= |dat| && off == Times(blkIdx, bs) && left == |data| - off
      invariant off < |data| <==> blkIdx < |dat|
      invariant dev.blks == WroteData(dev.g, ffs, old(dev.blks), hdr, dat, data, blkIdx)
      decreases |dat| - blkIdx
    {
      PieceAt(data, bs, blkIdx);
      var blkNum := dat[blkIdx];
      var size := left;
      if size > bs { size := bs; }
      var d := data[off..off + size];
      assert d == Piece(data, bs, blkIdx);
      DataRecFits(dev.g, ffs, hdr, dat, data, blkIdx);
      DataRecIs(dev.g, ffs, hdr, dat, data, blkIdx, d, if blkIdx == |dat| - 1 then 0 else dat[blkIdx + 1]);
      if ffs {
        // pad block
        if size < bs { d := d + ZeroBytes(bs - size); }
        PadNone(Piece(data, bs, blkIdx), bs);
        dev.WriteBlock(blkNum, Raw(d));
      } else {
        var nextData;
        if blkIdx == |dat| - 1 { nextData := 0; } else { nextData := dat[blkIdx + 1]; }
        dev.WriteBlock(blkNum, FileData(hdr, blkIdx + 1, nextData, d));
      }
      blkIdx := blkIdx + 1;
      off := off + bs;
      left := left - bs;
    }
  }

  /** There are no more data blocks than bytes. */
  lemma DataCountBound(g: Geometry, ffs: bool, size: nat)
    requires g.Valid()
    ensures NumData(g, ffs, size) <= size
  {
    CeilDivAtMost(size, DataPerBlock(g, ffs));
  }

  lemma PadNone(d: seq<byte>, bs: nat)
    requires |d| <= bs
    ensures |d| == bs ==> d + ZeroBytes(bs - |d|) == d
  {
  }

  lemma SubLongs(s: seq<nat>, lo: nat, hi: nat)
    requires AreLongs(s) && 0 < |s| && lo <= hi <= |s|
    ensures AreLongs(s[lo..hi]) && s[0] < 0x1_0000_0000 && s[hi..] == s[hi..|s|] && s[lo..|s|] == s[lo..]
  {
  }

  lemma TrimmedKey(num: nat, r: Block)
    requires r.FileHeader? || r.UserDir?
    ensures KeyOk(num, Trimmed(r)) <==> r.ownKey == num
  {
  }

  /** `blocks_create_new` on allocated blocks.  The header comes first, so nothing is written when it raises;
      strings longer than their fields are cut. */
  method CreateBlocks(dev: BlockDevice, ffs: bool, freeBlks: seq<nat>, name: seq<byte>, data: seq<byte>,
                      hashChain: nat, parent: nat, meta: Meta)
    returns (ok: bool, hdr: nat, ext: seq<nat>, dat: seq<nat>)
    requires dev.g.Valid() && |freeBlks| == NumBlocks(dev.g, ffs, |data|)
    requires dev.Sound() && AreLongs(freeBlks) && hashChain < 0x1_0000_0000 && parent < 0x1_0000_0000
    modifies dev
    ensures dev.Sound() && (ok <==> HeaderFits(name, |data|, meta)) && (!ok ==> dev.blks == old(dev.blks))
    ensures ok <==> |name| < 256 && |meta.comment| < 256 && |data| < 0x1_0000_0000
    ensures FileBlocks(hdr, ext, dat) == freeBlks == [hdr] + ext + dat && CountsOk(dev.g, ffs, ext, dat, |data|)
    ensures ok ==>
      var header := Trimmed(HeaderRec(dev.g, hdr, parent, name, hashChain, |data|, ext, dat, meta));
      dev.blks == WroteFile(dev.g, ffs, old(dev.blks), header, hdr, ext, dat, data)
  {
    // assign block numbers
    hide Storable, Trimmed, NumbersFit, WroteLists, WroteData, AreLongs;
    var numExt, numData := NumList(dev.g, ffs, |data|), NumData(dev.g, ffs, |data|);
    SubLongs(freeBlks, 1, 1 + numExt);
    SubLongs(freeBlks, 1 + numExt, |freeBlks|);
    hdr, ext, dat := freeBlks[0], freeBlks[1..1 + numExt], freeBlks[1 + numExt..];
    var ppb := Ppb(dev.g);
    ListPieces(dev.g, ffs, |data|);
    // create file header block
    var hdrBlks, hdrExt;
    if numData > ppb {
      hdrBlks, hdrExt := dat[..ppb], ext[0];
      PieceAt(dat, ppb, 0);
    } else {
      hdrBlks, hdrExt := dat, 0;
    }
    assert hdrBlks == Piece(dat, ppb, 0) && hdrExt == At(ext, 0);
    ok := |name| < 256 && |meta.comment| < 256 && |data| < 0x1_0000_0000;
    if ok {
      var fhb := FileHeader(hdr, parent, name, hashChain, |data|, hdrBlks, hdrExt, meta);
      HeaderRecFits(dev.g, hdr, parent, name, hashChain, |data|, ext, dat, meta);
      TrimmedIff(fhb, dev.g.blockLongs);
      TrimmedKey(hdr, fhb);
      dev.WriteBlock(hdr, Trimmed(fhb));
      WriteLists(dev, ffs, hdr, ext, dat, |data|);
      WriteData(dev, ffs, hdr, dat, data);
    }
  }

  // ----- finding the blocks again -----

  datatype FileError =
    | InvalidFileHeader | InvalidFileList | ListCountMismatch | DataCountMismatch
    | InvalidFileData | InvalidSeqNum | SizeMismatch
  datatype Result<+T> = Ok(value: T) | Err(error: FileError)

  /** The walk along the extension links from block `first` visits the blocks `ext`, and ends at link 0 or at
      a block that is not a list block with its own number. */
  ghost predicate ExtChain(disk: map<nat, Block>, first: nat, ext: seq<nat>) {
    && first == At(ext, 0) && Seqs.NoZero(ext)
    && (forall i :: 0 <= i < |ext| - 1 ==> IsList(disk, ext[i]))
    && (forall i :: 0 <= i < |ext| && IsList(disk, ext[i]) ==> disk[ext[i]].extension == At(ext, i + 1))
  }

  predicate IsList(disk: map<nat, Block>, b: nat) { b in disk && disk[b].FileList? && disk[b].ownKey == b }

  /** The data block numbers in the first `n` blocks of a chain; None at a block that is no list block. */
  function Listed(disk: map<nat, Block>, ext: seq<nat>, n: nat): Option<seq<nat>>
    requires n <= |ext|
  {
    if n == 0 then Some([]) else
      var r := Listed(disk, ext, n - 1);
      if r.None? || !IsList(disk, ext[n - 1]) then None else Some(r.value + disk[ext[n - 1]].dataBlocks)
  }

  /** The outcome of `blocks_create_old` for a header and its chain. */
  function Opened(g: Geometry, ffs: bool, disk: map<nat, Block>, hdr: nat, blk: Block, ext: seq<nat>)
    : Result<(seq<nat>, seq<nat>)>
    requires g.Valid() && blk.FileHeader?
  {
    var r := Listed(disk, ext, |ext|);
    if blk.ownKey != hdr then Err(InvalidFileHeader)
    else if r.None? then Err(InvalidFileList)
    else if |ext| != NumList(g, ffs, blk.byteSize) then Err(ListCountMismatch)
    else if |blk.dataBlocks + r.value| != NumData(g, ffs, blk.byteSize) then Err(DataCountMismatch)
    else Ok((ext, blk.dataBlocks + r.value))
  }

  /** Which check fails first: the header's own key, a block of the chain that is no list block with its own number,
      the number of list blocks, the number of data blocks. */
  lemma OpenedExact(g: Geometry, ffs: bool, disk: map<nat, Block>, hdr: nat, blk: Block, ext: seq<nat>)
    requires g.Valid() && blk.FileHeader?
    ensures var r := Opened(g, ffs, disk, hdr, blk, ext);
      var broken := exists b :: b in ext && !(b in disk && disk[b].FileList? && disk[b].ownKey == b);
      && (r == Err(InvalidFileHeader) <==> blk.ownKey != hdr)
      && (r == Err(InvalidFileList) <==> blk.ownKey == hdr && broken)
      && (r == Err(ListCountMismatch) <==> blk.ownKey == hdr && !broken && |ext| != NumList(g, ffs, blk.byteSize))
      && (r.Ok? ==> r.value.0 == ext && blk.dataBlocks <= r.value.1 && |r.value.1| == NumData(g, ffs, blk.byteSize))
  {
    hide NumList, NumData;
    ListedIff(disk, ext, |ext|);
    assert (forall b :: b in ext ==> IsList(disk, b)) <==> forall i :: 0 <= i < |ext| ==> IsList(disk, ext[i]);
  }

  lemma {:induction false} ListedIff(disk: map<nat, Block>, ext: seq<nat>, n: nat)
    requires n <= |ext|
    ensures Listed(disk, ext, n).Some? <==> forall i :: 0 <= i < n ==> IsList(disk, ext[i])
  {
    if n > 0 { ListedIff(disk, ext, n - 1); }
  }

  /** `blocks_create_old`: walk the extension chain from the header block. */
  method OpenBlocks(dev: BlockDevice, ffs: bool, hdr: nat, ghost chain: seq<nat>)
    returns (r: Result<(seq<nat>, seq<nat>)>)
    requires dev.g.Valid() && hdr in dev.blks && dev.blks[hdr].FileHeader?
    requires ExtChain(dev.blks, dev.blks[hdr].extension, chain)
    ensures r == Opened(dev.g, ffs, dev.blks, hdr, dev.blks[hdr], chain)
  {
    var fhb := dev.blks[hdr];
    if fhb.ownKey != hdr { return Err(InvalidFileHeader); }
    var dat, ext := fhb.dataBlocks, [];
    var nextExt := fhb.extension;
    while nextExt != 0
      invariant ext <= chain && nextExt == At(chain, |ext|)
      invariant Listed(dev.blks, chain, |ext|).Some?
      invariant dat == fhb.dataBlocks + Listed(dev.blks, chain, |ext|).value
      decreases |chain| - |ext|
    {
      if !IsList(dev.blks, nextExt) {
        ListedBad(dev.blks, chain, |ext|, |chain|);
        return Err(InvalidFileList);
      }
      var extBlk := dev.blks[nextExt];
      ext := ext + [nextExt];
      dat := dat + extBlk.dataBlocks;
      nextExt := extBlk.extension;
    }
    assert ext == chain;
    if |ext| != NumList(dev.g, ffs, fhb.byteSize) { return Err(ListCountMismatch); }
    if |dat| != NumData(dev.g, ffs, fhb.byteSize) { return Err(DataCountMismatch); }
    r := Ok((ext, dat));
  }

  lemma {:induction false} ListedBad(disk: map<nat, Block>, ext: seq<nat>, i: nat, n: nat)
    requires i < n <= |ext| && !IsList(disk, ext[i])
    ensures Listed(disk, ext, n).None?
  {
    if i < n - 1 {
      ListedBad(disk, ext, i, n - 1);
    }
  }

  lemma ListsAreLists(g: Geometry, disk: map<nat, Block>, hdr: nat, ext: seq<nat>, dat: seq<nat>)
    requires g.Valid() && ListsOnDisk(g, disk, hdr, ext, dat, |ext|)
    ensures forall i :: 0 <= i < |ext| ==> IsList(disk, ext[i])
  {
    forall i | 0 <= i < |ext| ensures IsList(disk, ext[i]) {
      assert Landed(disk, ext[i], ListRec(g, hdr, ext, dat, i));
    }
  }

  lemma {:induction false} ListedPieces(g: Geometry, disk: map<nat, Block>, hdr: nat, ext: seq<nat>,
          dat: seq<nat>, n: nat)
    requires g.Valid() && n <= |ext| && ListsOnDisk(g, disk, hdr, ext, dat, |ext|)
    ensures Cut(dat, Ppb(g), 1) <= Cut(dat, Ppb(g), n + 1)
    ensures Listed(disk, ext, n) == Some(dat[Cut(dat, Ppb(g), 1)..Cut(dat, Ppb(g), n + 1)])
  {
    if n == 0 {
      assert dat[Cut(dat, Ppb(g), 1)..Cut(dat, Ppb(g), 1)] == [];
    } else {
      ListedPieces(g, disk, hdr, ext, dat, n - 1);
      assert Landed(disk, ext[n - 1], ListRec(g, hdr, ext, dat, n - 1));
      var a, b, c := Cut(dat, Ppb(g), 1), Cut(dat, Ppb(g), n), Cut(dat, Ppb(g), n + 1);
      TimesLe(n, n + 1, Ppb(g));
      assert a <= b <= c;
      assert IsList(disk, ext[n - 1]) && disk[ext[n - 1]].dataBlocks == dat[b..c];
      Seqs.Glue(dat, a, b, c);
      hide Cut, Ppb, ListsOnDisk, ListRec, Landed;
      assert Listed(disk, ext, n) == Some(dat[a..b] + dat[b..c]);
    }
  }

  /** Create, then open from the device: the same list and data blocks, and every check passes. */
  lemma OpenedIsCreated(g: Geometry, ffs: bool, disk: map<nat, Block>, hdr: nat, blk: Block,
                        ext: seq<nat>, dat: seq<nat>, data: seq<byte>)
    requires g.Valid() && BodyOnDisk(g, ffs, disk, hdr, ext, dat, data) && Seqs.NoZero(ext)
    requires HeaderOk(g, blk, hdr, ext, dat, |data|)
    ensures ExtChain(disk, blk.extension, ext)
    ensures Opened(g, ffs, disk, hdr, blk, ext) == Ok((ext, dat))
  {
    assert forall i :: 0 <= i < |ext| ==> Landed(disk, ext[i], ListRec(g, hdr, ext, dat, i));
    ListsAreLists(g, disk, hdr, ext, dat);
    ListedPieces(g, disk, hdr, ext, dat, |ext|);
    AllPieces(g, ffs, |data|, ext, dat);
  }

  /** The header piece and the list pieces make up the whole list. */
  lemma AllPieces(g: Geometry, ffs: bool, size: nat, ext: seq<nat>, dat: seq<nat>)
    requires g.Valid() && CountsOk(g, ffs, ext, dat, size)
    ensures var ppb := Ppb(g);
      Cut(dat, ppb, 1) <= Cut(dat, ppb, |ext| + 1)
      && Piece(dat, ppb, 0) + dat[Cut(dat, ppb, 1)..Cut(dat, ppb, |ext| + 1)] == dat
  {
    var ppb := Ppb(g);
    ListPieces(g, ffs, size);
    assert Times(1, ppb) == ppb;
    TimesPlusOne(|ext|, ppb);
    assert Cut(dat, ppb, |ext| + 1) == |dat|;
  }

  lemma {:induction false} TimesPlusOne(n: nat, size: nat)
    ensures Times(n + 1, size) == size + Times(n, size)
  {
    if n > 0 {
      TimesPlusOne(n - 1, size);
    }
  }

  // ----- reading the bytes back -----

  /** What `read` has gathered after `n` data blocks. */
  function Gathered(ffs: bool, disk: map<nat, Block>, dat: seq<nat>, byteSize: nat, n: nat): Result<seq<byte>>
    requires n <= |dat|
  {
    if n == 0 then Ok([]) else
      var r := Gathered(ffs, disk, dat, byteSize, n - 1);
      if r.Err? then r else NextBlock(ffs, disk, dat[n - 1], n, byteSize, r.value)
  }

  /** One round of `read`: an FFS block is cut at the end of the file, an OFS block must carry the
      wanted sequence number. */
  function NextBlock(ffs: bool, disk: map<nat, Block>, b: nat, wantSeq: nat, byteSize: nat,
          data: seq<byte>): Result<seq<byte>>
  {
    if b !in disk then Err(InvalidFileData)
    else if ffs then
      if !disk[b].Raw? then Err(InvalidFileData) else
        var raw := disk[b].bytes;
        var left := if byteSize <= |data| then 0 else byteSize - |data|;
        Ok(data + if |data| + |raw| <= byteSize then raw else raw[..left])
    else if !disk[b].FileData? then Err(InvalidFileData)
    else if disk[b].seqNum != wantSeq then Err(InvalidSeqNum)
    else Ok(data + disk[b].contents)
  }

  /** `read` and the size check at its end. */
  method ReadData(dev: BlockDevice, ffs: bool, dat: seq<nat>, byteSize: nat) returns (r: Result<seq<byte>>)
    ensures r == ReadBack(ffs, dev.blks, dat, byteSize)
  {
    var data: seq<byte> := [];
    var totalSize, wantSeqNum := 0, 1;
    for i := 0 to |dat|
      invariant Gathered(ffs, dev.blks, dat, byteSize, i) == Ok(data)
      invariant wantSeqNum == i + 1
      invariant ffs ==> totalSize == |data| <= byteSize
    {
      var blk := dat[i];
      if blk !in dev.blks || (ffs && !dev.blks[blk].Raw?) || (!ffs && !dev.blks[blk].FileData?) {
        GatheredFails(ffs, dev.blks, dat, byteSize, i + 1, |dat|);
        return Err(InvalidFileData);
      }
      if ffs {
        var datBlk := dev.blks[blk].bytes;
        totalSize := totalSize + |datBlk|;
        // shrink last read if necessary
        if totalSize > byteSize {
          var shrink := totalSize - byteSize;
          datBlk := datBlk[..|datBlk| - shrink];
          totalSize := byteSize;
        }
        data := data + datBlk;
      } else {
        if dev.blks[blk].seqNum != wantSeqNum {
          GatheredFails(ffs, dev.blks, dat, byteSize, i + 1, |dat|);
          return Err(InvalidSeqNum);
        }
        totalSize := totalSize + |dev.blks[blk].contents|;
        data := data + dev.blks[blk].contents;
      }
      wantSeqNum := wantSeqNum + 1;
    }
    if |data| != byteSize { return Err(SizeMismatch); }
    r := Ok(data);
  }

  function ReadBack(ffs: bool, disk: map<nat, Block>, dat: seq<nat>, byteSize: nat): Result<seq<byte>> {
    var r := Gathered(ffs, disk, dat, byteSize, |dat|);
    if r.Ok? && |r.value| != byteSize then Err(SizeMismatch) else r
  }

  lemma {:induction false} GatheredFails(ffs: bool, disk: map<nat, Block>, dat: seq<nat>, byteSize: nat, i: nat, n: nat)
    requires i <= n <= |dat| && Gathered(ffs, disk, dat, byteSize, i).Err?
    ensures Gathered(ffs, disk, dat, byteSize, n) == Gathered(ffs, disk, dat, byteSize, i)
    decreases n
  {
    if i < n {
      GatheredFails(ffs, disk, dat, byteSize, i, n - 1);
    }
  }

  /** The `i`-th block can be read in its turn. */
  predicate InTurn(ffs: bool, disk: map<nat, Block>, dat: seq<nat>, i: nat)
    requires i < |dat|
  {
    dat[i] in disk && if ffs then disk[dat[i]].Raw? else disk[dat[i]].FileData? && disk[dat[i]].seqNum == i + 1
  }

  /** The bytes of the blocks behind each other. */
  function Joined(ffs: bool, disk: map<nat, Block>, dat: seq<nat>, n: nat): seq<byte>
    requires n <= |dat| && forall i :: 0 <= i < n ==> InTurn(ffs, disk, dat, i)
  {
    if n == 0 then [] else
      assert InTurn(ffs, disk, dat, n - 1);
      Joined(ffs, disk, dat, n - 1) + if ffs then disk[dat[n - 1]].bytes else disk[dat[n - 1]].contents
  }

  /** Blocks that are all in turn are joined; FFS blocks may have more than the file, and any other difference in size
      is an error. */
  lemma ReadBackExact(ffs: bool, disk: map<nat, Block>, dat: seq<nat>, byteSize: nat)
    requires forall i :: 0 <= i < |dat| ==> InTurn(ffs, disk, dat, i)
    ensures var all := Joined(ffs, disk, dat, |dat|);
      ReadBack(ffs, disk, dat, byteSize) ==
        if |all| == byteSize || (ffs && byteSize < |all|) then Ok(all[..byteSize]) else Err(SizeMismatch)
  {
    GatheredJoined(ffs, disk, dat, byteSize, |dat|);
    var all := Joined(ffs, disk, dat, |dat|);
    assert |all| == byteSize ==> all[..byteSize] == all;
  }

  lemma {:induction false} GatheredJoined(ffs: bool, disk: map<nat, Block>, dat: seq<nat>, byteSize: nat, n: nat)
    requires n <= |dat| && forall i :: 0 <= i < n ==> InTurn(ffs, disk, dat, i)
    ensures var all := Joined(ffs, disk, dat, n);
      Gathered(ffs, disk, dat, byteSize, n) == Ok(if ffs && byteSize < |all| then all[..byteSize] else all)
  {
    if n > 0 {
      GatheredJoined(ffs, disk, dat, byteSize, n - 1);
      var before := Joined(ffs, disk, dat, n - 1);
      assert InTurn(ffs, disk, dat, n - 1);
      if ffs {
        var raw := disk[dat[n - 1]].bytes;
        if byteSize < |before| {
          assert before[..byteSize] + raw[..0] == (before + raw)[..byteSize];
        } else if byteSize < |before| + |raw| {
          assert before + raw[..byteSize - |before|] == (before + raw)[..byteSize];
        }
      }
    }
  }

  /** The first block that is not in turn decides the error. */
  lemma ReadFailsAt(ffs: bool, disk: map<nat, Block>, dat: seq<nat>, byteSize: nat, i: nat)
    requires i < |dat| && !InTurn(ffs, disk, dat, i) && forall j :: 0 <= j < i ==> InTurn(ffs, disk, dat, j)
    ensures ReadBack(ffs, disk, dat, byteSize) ==
      Err(if !ffs && dat[i] in disk && disk[dat[i]].FileData? then InvalidSeqNum else InvalidFileData)
  {
    GatheredJoined(ffs, disk, dat, byteSize, i);
    GatheredFails(ffs, disk, dat, byteSize, i + 1, |dat|);
  }

  lemma {:induction false} GatheredPieces(g: Geometry, ffs: bool, disk: map<nat, Block>, hdr: nat, dat: seq<nat>,
                                          data: seq<byte>, n: nat)
    requires g.Valid() && |dat| == NumData(g, ffs, |data|) && n <= |dat|
    requires DataOnDisk(g, ffs, disk, hdr, dat, data, |dat|)
    ensures Gathered(ffs, disk, dat, |data|, n) == Ok(data[..Cut(data, DataPerBlock(g, ffs), n)])
  {
    hide DataOnDisk, DataPerBlock, NumData, CeilDiv;
    if n > 0 {
      GatheredPieces(g, ffs, disk, hdr, dat, data, n - 1);
      NextPiece(g, ffs, disk, hdr, dat, data, n - 1);
    }
  }

  lemma NextPiece(g: Geometry, ffs: bool, disk: map<nat, Block>, hdr: nat, dat: seq<nat>, data: seq<byte>, i: nat)
    requires g.Valid() && |dat| == NumData(g, ffs, |data|) && i < |dat|
    requires DataOnDisk(g, ffs, disk, hdr, dat, data, |dat|)
    requires Gathered(ffs, disk, dat, |data|, i) == Ok(data[..Cut(data, DataPerBlock(g, ffs), i)])
    ensures Gathered(ffs, disk, dat, |data|, i + 1) == Ok(data[..Cut(data, DataPerBlock(g, ffs), i + 1)])
  {
    assert Landed(disk, dat[i], DataRec(g, ffs, hdr, dat, data, i));
    var bs := DataPerBlock(g, ffs);
    var a, b := Cut(data, bs, i), Cut(data, bs, i + 1);
    var d := data[a..b];
    PieceAt(data, bs, i);
    assert data[..a] + d == data[..b];
    if |d| < bs {
      assert b == |data| && (d + ZeroBytes(bs - |d|))[..|d|] == d;
    } else {
      PadNone(d, bs);
    }
  }

  /** Create, then read from the device: the same bytes, and every size and sequence check passes. */
  lemma ReadBackIsData(g: Geometry, ffs: bool, disk: map<nat, Block>, hdr: nat, ext: seq<nat>, dat: seq<nat>,
          data: seq<byte>)
    requires g.Valid() && BodyOnDisk(g, ffs, disk, hdr, ext, dat, data)
    ensures ReadBack(ffs, disk, dat, |data|) == Ok(data)
  {
    GatheredPieces(g, ffs, disk, hdr, dat, data, |dat|);
    LastCut(data, DataPerBlock(g, ffs));
    assert data[..|data|] == data;
  }
}
