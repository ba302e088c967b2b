/** The state of a mounted volume: node objects, device blocks, free blocks, and the invariant that
    ties them to each other and to the map from paths to contents that they stand for. */
module VolumeState {
  import opened Bytes
  import Seqs
  import Device
  import FileNames
  import FileLayout

  /** Folded names from the root directory down. */
  type Path = seq<seq<byte>>
  datatype Entry = Folder | Contents(data: seq<byte>)

  /** What does not change while a volume is mounted; `sys` are the bitmap and bitmap extension
      blocks, `capacity` is the number of other blocks; the last two
      fields are the root block's pointers to the bitmap. */
  datatype Config = Config(g: Device.Geometry, ffs: bool, intl: bool, root: nat, sys: set<nat>, capacity: nat,
                           bitmapPtrs: seq<nat>, bitmapExt: nat) {
    ghost predicate Valid() {
      g.Valid() && g.reserved <= root < g.numBlocks && root !in sys
    }

    function HashSize(): (n: nat)
      requires g.Valid()
      ensures n > 0
    {
      g.blockLongs - 56
    }
  }

  /** A node object (`ADFSDir`, `ADFSFile`), known by the number of its header block.  `block` is its
      copy of the header block; `buckets` is `name_hash`, holding nodes by number. */
  datatype Node =
    | DirNode(block: Device.Block, up: Option<nat>, entries: seq<nat>, buckets: seq<seq<nat>>)
    | FileNode(block: Device.Block, up: Option<nat>, ext: seq<nat>, dat: seq<nat>, cache: Option<seq<byte>>)
  {
    function Name(): seq<byte> {
      if block.Root? then block.rootName
      else if block.UserDir? || block.FileHeader? then block.name else []
    }

    /** The hash chain link in the header block. */
    function Link(): nat {
      if block.UserDir? || block.FileHeader? then block.hashChain else 0
    }

    /** The parent directory named in the header block. */
    function Parent(): nat {
      if block.UserDir? || block.FileHeader? then block.parent else 0
    }

    function Table(): seq<nat> {
      if block.Root? then block.rootTable else if block.UserDir? then block.dirTable else []
    }

    /** `get_block_nums`. */
    function Own(id: nat): seq<nat> {
      match this
      case DirNode(_, _, _, _) => [id]
      case FileNode(_, _, ext, dat, _) => FileLayout.FileBlocks(id, ext, dat)
    }

    function WithTable(table: seq<nat>): (r: Node)
      requires DirNode? && (block.Root? || block.UserDir?)
      ensures r.Table() == table && SameChild(this, r)
      ensures r == DirNode(TableBlock(block, table), up, entries, buckets)
    {
      DirNode(TableBlock(block, table), up, entries, buckets)
    }

    function WithLink(next: nat): (r: Node)
      requires block.UserDir? || block.FileHeader?
      ensures r.Link() == next && r.Name() == Name() && r.Table() == Table()
      ensures r == WithBlock(LinkBlock(block, next))
    {
      WithBlock(LinkBlock(block, next))
    }

    function WithBlock(b: Device.Block): Node {
      match this
      case DirNode(_, up, entries, buckets) => DirNode(b, up, entries, buckets)
      case FileNode(_, up, ext, dat, cache) => FileNode(b, up, ext, dat, cache)
    }
  }

  function TableBlock(b: Device.Block, table: seq<nat>): Device.Block
    requires b.Root? || b.UserDir?
  {
    match b
    case Root(name, _, ptrs, ext, meta, disk, create, fsType) =>
      Device.Root(name, table, ptrs, ext, meta, disk, create, fsType)
    case UserDir(key, parent, name, chain, _, meta) => Device.UserDir(key, parent, name, chain, table, meta)
  }

  function LinkBlock(b: Device.Block, next: nat): Device.Block
    requires b.UserDir? || b.FileHeader?
  {
    match b
    case UserDir(key, parent, name, _, table, meta) => Device.UserDir(key, parent, name, next, table, meta)
    case FileHeader(key, parent, name, _, size, dat, ext, meta) =>
      Device.FileHeader(key, parent, name, next, size, dat, ext, meta)
  }

  datatype Vol = Vol(disk: map<nat, Device.Block>, nodes: map<nat, Node>, free: set<nat>)

  /** The abstract volume `fs` and how the nodes realise it: node <-> path, node <-> blocks. */
  datatype Index = Index(path: map<nat, Path>, ids: map<Path, nat>, fs: map<Path, Entry>,
                         owned: map<nat, set<nat>>, owner: map<nat, nat>)

  // ----- one node -----

  ghost predicate Mirrored(v: Vol, id: nat)
    requires id in v.nodes
  {
    id in v.disk && v.disk[id] == v.nodes[id].block
  }

  ghost predicate Indexed(v: Vol, x: Index, id: nat) {
    id in x.path && x.path[id] in x.ids && x.ids[x.path[id]] == id && x.path[id] in x.fs
  }

  /** The node hangs under its parent, in the bucket of its name, and its header block names that parent. */
  ghost predicate Hangs(c: Config, v: Vol, x: Index, id: nat)
    requires c.Valid() && id in v.nodes && id in x.path
  {
    var n := v.nodes[id];
    if id == c.root then n.up == None && n.DirNode? && n.block.Root? && x.path[id] == []
    else
      && n.up.Some? && !n.block.Root? && n.Parent() == n.up.value && IsParent(c, v, n.up.value, id)
      && n.up.value in x.path && x.path[id] == x.path[n.up.value] + [FileNames.Upper(n.Name(), c.intl)]
  }

  ghost predicate IsParent(c: Config, v: Vol, d: nat, id: nat)
    requires c.Valid() && id in v.nodes
  {
    && d in v.nodes && v.nodes[d].DirNode? && |v.nodes[d].buckets| == c.HashSize()
    && id in v.nodes[d].entries
    && id in v.nodes[d].buckets[FileNames.Hash(v.nodes[id].Name(), c.intl, c.HashSize())]
  }

  ghost predicate Owns(v: Vol, x: Index, id: nat)
    requires id in v.nodes
  {
    Seqs.Distinct(v.nodes[id].Own(id)) && id in x.owned && x.owned[id] == Seqs.Elems(v.nodes[id].Own(id))
  }

  /** Position `i` of bucket `h`: a child of `d` whose on-disk link names the next position. */
  ghost predicate InChain(c: Config, v: Vol, d: nat, h: nat, bucket: seq<nat>, i: nat)
    requires c.Valid() && i < |bucket|
  {
    var id := bucket[i];
    && id in v.nodes && id != c.root && v.nodes[id].up == Some(d)
    && FileNames.Hash(v.nodes[id].Name(), c.intl, c.HashSize()) == h
    && v.nodes[id].Link() == FileLayout.At(bucket, i + 1)
  }

  ghost predicate BucketOk(c: Config, v: Vol, d: nat, h: nat, bucket: seq<nat>, first: nat)
    requires c.Valid()
  {
    && first == FileLayout.At(bucket, 0) && Seqs.Distinct(bucket)
    && forall i :: 0 <= i < |bucket| ==> InChain(c, v, d, h, bucket, i)
  }

  ghost predicate IsChild(v: Vol, d: nat, id: nat) { id in v.nodes && v.nodes[id].up == Some(d) }

  /** The buckets of a directory list the on-disk chains, in order. */
  ghost predicate DirOk(c: Config, v: Vol, x: Index, id: nat)
    requires c.Valid() && id in v.nodes && id in x.path && x.path[id] in x.fs
  {
    var n := v.nodes[id];
    && n.DirNode? && x.fs[x.path[id]] == Folder
    && (if n.block.Root? then n.block.bitmapPtrs == c.bitmapPtrs && n.block.bitmapExt == c.bitmapExt
        else n.block.UserDir? && n.block.ownKey == id)
    && |n.buckets| == |n.Table()| == c.HashSize()
    && Seqs.Distinct(n.entries) && (forall e :: e in n.entries ==> e != c.root && IsChild(v, id, e))
    && (forall h :: 0 <= h < |n.buckets| ==> BucketOk(c, v, id, h, n.buckets[h], n.Table()[h]))
  }

  /** A file node knows its blocks, and the blocks on the device hold its contents. */
  ghost predicate FileOk(c: Config, v: Vol, x: Index, id: nat)
    requires c.Valid() && id in v.nodes && id in x.path && x.path[id] in x.fs
  {
    var n := v.nodes[id];
    && n.FileNode? && x.fs[x.path[id]].Contents? && Seqs.NoZero(n.ext)
    && HoldsFile(c, v.disk, id, n, x.fs[x.path[id]].data)
  }

  ghost predicate HoldsFile(c: Config, disk: map<nat, Device.Block>, id: nat, n: Node, data: seq<byte>)
    requires c.Valid() && n.FileNode?
  {
    && FileLayout.HeaderOk(c.g, n.block, id, n.ext, n.dat, |data|)
    && FileLayout.BodyOnDisk(c.g, c.ffs, disk, id, n.ext, n.dat, data)
    && (n.cache.Some? ==> n.cache.value == data)
  }

  /** All there is to say about one node. */
  ghost predicate Live(c: Config, v: Vol, x: Index, id: nat)
    requires c.Valid()
  {
    && id in v.nodes && Mirrored(v, id) && Indexed(v, x, id) && Hangs(c, v, x, id) && Owns(v, x, id)
    && (if v.nodes[id].DirNode? then DirOk(c, v, x, id) else FileOk(c, v, x, id))
  }

  // ----- the whole volume -----

  /** Every owned block has one owner, a live node, and is not free. */
  ghost predicate OwnerOk(c: Config, v: Vol, x: Index) {
    && x.owned.Keys == v.nodes.Keys
    && (forall id :: id in x.owned ==> OwnsOnly(x, id))
    && (forall b :: b in x.owner ==> OwnedBlock(c, v, x, b))
  }

  ghost predicate OwnsOnly(x: Index, id: nat)
    requires id in x.owned
  {
    forall b :: b in x.owned[id] ==> b in x.owner && x.owner[b] == id
  }

  ghost predicate OwnedBlock(c: Config, v: Vol, x: Index, b: nat)
    requires b in x.owner
  {
    && InRange(c.g, b) && b !in c.sys && b !in v.free && b in v.disk
    && x.owner[b] in x.owned && b in x.owned[x.owner[b]]
  }

  predicate InRange(g: Device.Geometry, b: nat) { g.reserved <= b < g.numBlocks }

  /** The blocks marked used are exactly the system blocks and the blocks of live nodes. */
  ghost predicate FreeOk(c: Config, v: Vol, x: Index) {
    && (forall b :: b in v.free ==> InRange(c.g, b) && b !in c.sys)
    && (forall b :: InRange(c.g, b) && b !in v.free && b !in c.sys ==> b in x.owner)
  }

  ghost predicate IdsOk(v: Vol, x: Index) {
    && x.path.Keys == v.nodes.Keys && x.fs.Keys == x.ids.Keys
    && (forall p :: p in x.ids ==> x.ids[p] in x.path && x.path[x.ids[p]] == p)
  }

  ghost predicate AllLive(c: Config, v: Vol, x: Index)
    requires c.Valid()
  {
    forall id :: id in v.nodes ==> Live(c, v, x, id)
  }

  /** Blocks of an entry, by its contents alone. */
  function Cost(c: Config, e: Entry): nat
    requires c.g.Valid()
  {
    if e.Folder? then 1 else FileLayout.NumBlocks(c.g, c.ffs, |e.data|)
  }

  ghost function TotalCost(c: Config, fs: map<Path, Entry>): nat
    requires c.g.Valid()
    decreases fs.Keys
  {
    if fs == map[] then 0 else
      var p := Pick(fs);
      Cost(c, fs[p]) + TotalCost(c, fs - {p})
  }

  ghost function Pick(fs: map<Path, Entry>): (p: Path)
    requires fs != map[]
    ensures p in fs
  {
    assert fs.Keys != {};
    var p :| p in fs;
    p
  }

  /** No block is ever lost: free blocks and the blocks the entries need add up to the capacity. */
  ghost predicate Balanced(c: Config, v: Vol, x: Index)
    requires c.g.Valid()
  {
    |v.free| + TotalCost(c, x.fs) == c.capacity
  }

  ghost predicate Inv(c: Config, v: Vol, x: Index)
    requires c.Valid()
  {
    && c.root in v.nodes && IdsOk(v, x) && OwnerOk(c, v, x) && FreeOk(c, v, x)
    && AllLive(c, v, x) && Balanced(c, v, x)
  }

  lemma {:induction false} CostOfOne(c: Config, fs: map<Path, Entry>, p: Path)
    requires c.g.Valid() && p in fs
    ensures TotalCost(c, fs) == Cost(c, fs[p]) + TotalCost(c, fs - {p})
    decreases fs.Keys
  {
    hide Cost;
    assert fs != map[];
    var q := Pick(fs);
    if q != p {
      CostOfOne(c, fs - {q}, p);
      CostOfOne(c, fs - {p}, q);
      assert fs - {q} - {p} == fs - {p} - {q};
    }
  }

  // ----- frames -----

  /** What the parent's chains see of a child. */
  predicate SameChild(n: Node, m: Node) {
    m.up == n.up && m.Name() == n.Name() && m.Link() == n.Link() && m.block.Root? == n.block.Root?
  }

  /** Only the chain link, time stamps and the cache of a node may differ. */
  predicate SameShape(n: Node, m: Node) {
    && m.up == n.up && m.Name() == n.Name() && m.Parent() == n.Parent() && m.block.Root? == n.block.Root?
    && (if n.DirNode? then SameDir(n, m) else SameFile(n, m))
  }

  predicate SameDir(n: Node, m: Node)
    requires n.DirNode?
  {
    && m.DirNode? && m.entries == n.entries && m.buckets == n.buckets && m.Table() == n.Table()
    && (n.block.UserDir? ==> m.block.UserDir? && m.block.ownKey == n.block.ownKey)
    && (n.block.Root? ==> m.block.Root? && SamePtrs(n.block, m.block))
  }

  predicate SamePtrs(n: Device.Block, m: Device.Block)
    requires n.Root? && m.Root?
  {
    m.bitmapPtrs == n.bitmapPtrs && m.bitmapExt == n.bitmapExt
  }

  predicate SameFile(n: Node, m: Node)
    requires n.FileNode?
  {
    && m.FileNode? && m.ext == n.ext && m.dat == n.dat
    && (n.block.FileHeader? ==> m.block.FileHeader? && SameHeader(n.block, m.block))
  }

  predicate SameHeader(n: Device.Block, m: Device.Block)
    requires n.FileHeader? && m.FileHeader?
  {
    && m.ownKey == n.ownKey && m.byteSize == n.byteSize
    && m.dataBlocks == n.dataBlocks && m.extension == n.extension
  }

  ghost predicate CacheOk(x: Index, id: nat, m: Node) {
    m.FileNode? && m.cache.Some? ==> id in x.path && x.path[id] in x.fs && x.fs[x.path[id]] == Contents(m.cache.value)
  }

  /** The blocks of a node, header aside, are the same on both devices. */
  ghost predicate SameBody(v: Vol, v': Vol, x: Index, id: nat)
    requires id in x.owned
  {
    forall b :: b in x.owned[id] && b != id ==> b in v.disk && b in v'.disk && v'.disk[b] == v.disk[b]
  }

  /** Same place in the index. */
  ghost predicate SamePlace(x: Index, x': Index, id: nat) {
    && id in x.path && id in x'.path && x'.path[id] == x.path[id]
    && x.path[id] in x.fs && x.path[id] in x'.fs && x'.fs[x.path[id]] == x.fs[x.path[id]]
    && x.path[id] in x'.ids && x'.ids[x.path[id]] == id
  }

  ghost predicate SameParent(c: Config, x: Index, v': Vol, x': Index, id: nat)
    requires c.Valid() && id in v'.nodes
  {
    var up := v'.nodes[id].up;
    up.Some? ==>
      var p := up.value; IsParent(c, v', p, id) && p in x.path && p in x'.path && x'.path[p] == x.path[p]
  }

  ghost predicate SameChildren(v: Vol, v': Vol, id: nat) {
    forall e :: IsChild(v, id, e) ==> e in v'.nodes && SameChild(v.nodes[e], v'.nodes[e])
  }

  /** A node keeps its invariant when its shape, its body, its children's links and its place
      under its parent stay. */
  lemma NodeFrame(c: Config, v: Vol, x: Index, v': Vol, x': Index, id: nat)
    requires c.Valid() && Live(c, v, x, id)
    requires id in v.nodes && id in v'.nodes && Mirrored(v', id)
    requires SameShape(v.nodes[id], v'.nodes[id]) && CacheOk(x, id, v'.nodes[id])
    requires id in x.owned && id in x'.owned && x'.owned[id] == x.owned[id] && SameBody(v, v', x, id)
    requires SamePlace(x, x', id) && SameParent(c, x, v', x', id) && SameChildren(v, v', id)
    ensures Live(c, v', x', id)
  {
    if v.nodes[id].DirNode? {
      DirFrame(c, v, x, v', x', id);
    } else {
      FileFrame(c, v, x, v', x', id);
    }
  }

  lemma DirFrame(c: Config, v: Vol, x: Index, v': Vol, x': Index, id: nat)
    requires c.Valid() && id in v.nodes && id in x.path && x.path[id] in x.fs && DirOk(c, v, x, id)
    requires id in v'.nodes && SameShape(v.nodes[id], v'.nodes[id])
    requires SamePlace(x, x', id) && SameChildren(v, v', id)
    ensures DirOk(c, v', x', id)
  {
    var n := v.nodes[id];
    forall h | 0 <= h < |n.buckets| ensures BucketOk(c, v', id, h, n.buckets[h], n.Table()[h]) {
      BucketFrame(c, v, v', id, h, n.buckets[h], n.Table()[h]);
    }
    forall e | e in n.entries ensures e != c.root && IsChild(v', id, e) {
      assert IsChild(v, id, e);
    }
  }

  lemma FileFrame(c: Config, v: Vol, x: Index, v': Vol, x': Index, id: nat)
    requires c.Valid() && id in v.nodes && id in x.path && x.path[id] in x.fs && FileOk(c, v, x, id)
    requires Owns(v, x, id)
    requires id in v'.nodes && SameShape(v.nodes[id], v'.nodes[id]) && CacheOk(x, id, v'.nodes[id])
    requires SamePlace(x, x', id) && SameBody(v, v', x, id)
    ensures FileOk(c, v', x', id)
  {
    var n := v.nodes[id];
    FileLayout.SplitDistinct(id, n.ext, n.dat);
    forall b | b in n.ext || b in n.dat ensures b in v.disk && b in v'.disk && v'.disk[b] == v.disk[b] {
      assert b in n.Own(id);
    }
    FileLayout.BodyFrame(c.g, c.ffs, v.disk, v'.disk, id, n.ext, n.dat, x.fs[x.path[id]].data);
  }

  lemma BucketFrame(c: Config, v: Vol, v': Vol, d: nat, h: nat, bucket: seq<nat>, first: nat)
    requires c.Valid() && BucketOk(c, v, d, h, bucket, first) && SameChildren(v, v', d)
    ensures BucketOk(c, v', d, h, bucket, first)
  {
    forall i | 0 <= i < |bucket| ensures InChain(c, v', d, h, bucket, i) {
      assert InChain(c, v, d, h, bucket, i) && IsChild(v, d, bucket[i]);
    }
  }
}
