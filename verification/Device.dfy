/** The block device seen through typed blocks.  `BlockCodec` takes each record to the longs of its block and
    back; the device only ever holds records that survive this. */
module Device {
  import opened Bytes

  /** `BlockDevice._set_geometry`: what the file system uses of it. */
  datatype Geometry = Geometry(numBlocks: nat, reserved: nat, blockLongs: nat) {
    function BlockBytes(): nat { 4 * blockLongs }

    /** A usable device: block 0 is reserved (0 means "no block" in every chain) and a block
        is large enough for a header. */
    predicate Valid() {
      1 <= reserved < numBlocks < 0x1_0000_0000 && 56 < blockLongs < 0x1000_0000
    }
  }

  /** Protect bits, comment and time stamps of an entry, opaque here. */
  datatype Meta = Meta(protect: long, comment: seq<byte>, days: long, mins: long, ticks: long)

  datatype Time = Time(days: long, mins: long, ticks: long)

  datatype Block =
    | Root(rootName: seq<byte>, rootTable: seq<nat>, bitmapPtrs: seq<nat>, bitmapExt: nat,
           meta: Meta, diskTime: Time, createTime: Time, fsType: long)
    | UserDir(ownKey: nat, parent: nat, name: seq<byte>, hashChain: nat, dirTable: seq<nat>, meta: Meta)
    | FileHeader(ownKey: nat, parent: nat, name: seq<byte>, hashChain: nat, byteSize: nat,
                 dataBlocks: seq<nat>, extension: nat, meta: Meta)
    | FileList(ownKey: nat, parent: nat, dataBlocks: seq<nat>, extension: nat)
    | FileData(hdrKey: nat, seqNum: nat, nextData: nat, contents: seq<byte>)
    | Bitmap(bits: seq<byte>)
    | BitmapExt(ptrs: seq<nat>, next: nat)
    | Raw(bytes: seq<byte>)

  // ----- what a block has room for -----

  const NAME_FIELD := 30
  const COMMENT_FIELD := 79

  /** The root block has a modification time but neither protect bits nor a comment. */
  function RootMeta(m: Meta): Meta { Meta(0, [], m.days, m.mins, m.ticks) }

  /** Every number fits its field in a block of `n` longs, every table its place. */
  ghost predicate NumbersFit(r: Block, n: nat) {
    && 56 < n < 0x1000_0000
    && match r
       case Root(_, table, ptrs, ext, meta, _, _, _) =>
         && |table| == n - 56 && AreLongs(table) && |ptrs| == 25 && AreLongs(ptrs) && ext < 0x1_0000_0000
         && meta == RootMeta(meta)
       case UserDir(key, parent, _, chain, table, _) =>
         && key < 0x1_0000_0000 && parent < 0x1_0000_0000 && chain < 0x1_0000_0000
         && |table| == n - 56 && AreLongs(table)
       case FileHeader(key, parent, _, chain, size, dat, ext, _) =>
         && key < 0x1_0000_0000 && parent < 0x1_0000_0000 && chain < 0x1_0000_0000
         && size < 0x1_0000_0000 && ext < 0x1_0000_0000 && |dat| <= n - 56 && AreLongs(dat)
       case FileList(key, parent, dat, ext) =>
         && key < 0x1_0000_0000 && parent < 0x1_0000_0000 && ext < 0x1_0000_0000
         && |dat| <= n - 56 && AreLongs(dat)
       case FileData(key, num, next, contents) =>
         && key < 0x1_0000_0000 && num < 0x1_0000_0000 && next < 0x1_0000_0000 && |contents| <= 4 * (n - 6)
       case Bitmap(bits) => |bits| == 4 * (n - 1)
       case BitmapExt(ptrs, next) => |ptrs| == n - 1 && AreLongs(ptrs) && next < 0x1_0000_0000
       case Raw(bytes) => |bytes| == 4 * n
  }

  predicate StringsWithin(r: Block, nameMax: nat, commentMax: nat) {
    match r
    case Root(name, _, _, _, _, _, _, _) => |name| <= nameMax
    case UserDir(_, _, name, _, _, meta) => |name| <= nameMax && |meta.comment| <= commentMax
    case FileHeader(_, _, name, _, _, _, _, meta) => |name| <= nameMax && |meta.comment| <= commentMax
    case _ => true
  }

  /** The record can be written without an error: `_put_bstr` asserts fewer than 256 characters and
      `struct` packs 32 bits. */
  ghost predicate Writable(r: Block, n: nat) { NumbersFit(r, n) && StringsWithin(r, 255, 255) }

  /** The record survives its block as it is. */
  ghost predicate Storable(r: Block, n: nat) { NumbersFit(r, n) && StringsWithin(r, NAME_FIELD, COMMENT_FIELD) }

  function CutTo(s: seq<byte>, max: nat): (r: seq<byte>)
    ensures |r| <= max && r <= s && (r == s <==> |s| <= max)
  {
    if |s| > max then s[..max] else s
  }

  function CutMeta(m: Meta): Meta { Meta(m.protect, CutTo(m.comment, COMMENT_FIELD), m.days, m.mins, m.ticks) }

  /** What the block holds after the record is written: strings cut to their fields. */
  function Trimmed(r: Block): Block {
    match r
    case Root(name, table, ptrs, ext, meta, disk, create, fsType) =>
      Root(CutTo(name, NAME_FIELD), table, ptrs, ext, meta, disk, create, fsType)
    case UserDir(key, parent, name, chain, table, meta) =>
      UserDir(key, parent, CutTo(name, NAME_FIELD), chain, table, CutMeta(meta))
    case FileHeader(key, parent, name, chain, size, dat, ext, meta) =>
      FileHeader(key, parent, CutTo(name, NAME_FIELD), chain, size, dat, ext, CutMeta(meta))
    case _ => r
  }

  /** Names are cut after 30 characters and comments after 79, and nothing else is lost. */
  lemma TrimmedExact(r: Block)
    ensures match r
      case Root(name, table, ptrs, ext, meta, disk, create, fsType) =>
        Trimmed(r) == Root(if |name| <= 30 then name else name[..30], table, ptrs, ext, meta, disk, create, fsType)
      case UserDir(key, parent, name, chain, table, meta) =>
        Trimmed(r) == UserDir(key, parent, if |name| <= 30 then name else name[..30], chain, table,
          meta.(comment := if |meta.comment| <= 79 then meta.comment else meta.comment[..79]))
      case FileHeader(key, parent, name, chain, size, dat, ext, meta) =>
        Trimmed(r) == FileHeader(key, parent, if |name| <= 30 then name else name[..30], chain, size, dat, ext,
          meta.(comment := if |meta.comment| <= 79 then meta.comment else meta.comment[..79]))
      case _ => Trimmed(r) == r
  {
  }

  /** A written record survives exactly when its strings fit their fields. */
  lemma TrimmedIff(r: Block, n: nat)
    requires Writable(r, n)
    ensures Storable(Trimmed(r), n) && (Trimmed(r) == r <==> Storable(r, n))
  {
  }

  /** Header, list and directory blocks name their own number. */
  predicate KeyOk(num: nat, r: Block) {
    r.UserDir? || r.FileHeader? || r.FileList? ==> r.ownKey == num
  }

  /** Every block holds a record that its bytes give back. */
  ghost predicate DiskSound(disk: map<nat, Block>, n: nat) {
    forall b :: b in disk ==> Storable(disk[b], n) && KeyOk(b, disk[b])
  }

  /** The device itself: the last record written to each block. */
  class BlockDevice {
    const g: Geometry
    var blks: map<nat, Block>

    constructor (g: Geometry)
      ensures this.g == g && blks == map[] && Sound()
    {
      this.g := g;
      blks := map[];
    }

    ghost predicate Sound()
      reads this
    {
      DiskSound(blks, g.blockLongs)
    }

    method WriteBlock(num: nat, blk: Block)
      requires Storable(blk, g.blockLongs) && KeyOk(num, blk) && Sound()
      modifies this
      ensures blks == old(blks)[num := blk] && Sound()
    {
      blks := blks[num := blk];
    }
  }
}
