/** The state changes of `_create_node` and `_delete`, and why each keeps the volume invariant. */
module VolumeSteps {
  import opened Bytes
  import Seqs
  import Device
  import opened FileNames
  import FileLayout
  import opened VolumeState

  // ----- consequences of the invariant -----

  lemma LiveNode(c: Config, v: Vol, x: Index, id: nat)
    requires c.Valid() && Inv(c, v, x) && id in v.nodes
    ensures Live(c, v, x, id)
  {
    hide Live, IdsOk, OwnerOk, FreeOk, Balanced;
  }

  lemma HeaderOwned(c: Config, v: Vol, x: Index, id: nat)
    requires c.Valid() && Inv(c, v, x) && id in v.nodes
    ensures id in x.owned && id in x.owned[id]
    ensures Mirrored(v, id) && Indexed(v, x, id)
  {
    hide Inv, Hangs, DirOk, FileOk;
    LiveNode(c, v, x, id);
    assert v.nodes[id].Own(id)[0] == id;
  }

  lemma OwnerOf(c: Config, v: Vol, x: Index, id: nat, b: nat)
    requires c.Valid() && Inv(c, v, x) && id in x.owned && b in x.owned[id]
    ensures b in x.owner && x.owner[b] == id && OwnedBlock(c, v, x, b)
  {
    hide OwnedBlock, AllLive, IdsOk, FreeOk, Balanced;
    assert OwnsOnly(x, id);
  }

  /** No two nodes share a block, and a node's header block is its own. */
  lemma OwnApart(c: Config, v: Vol, x: Index, a: nat, b: nat)
    requires c.Valid() && Inv(c, v, x) && a in v.nodes && b in v.nodes && a != b
    ensures a in x.owned && b in x.owned && a in x.owned[a] && b in x.owned[b]
    ensures x.owned[a] !! x.owned[b]
  {
    hide *;
    HeaderOwned(c, v, x, a);
    HeaderOwned(c, v, x, b);
    forall k | k in x.owned[a] ensures k !in x.owned[b] {
      OwnerOf(c, v, x, a, k);
      if k in x.owned[b] { OwnerOf(c, v, x, b, k); }
    }
  }

  /** A live node's place in the index and under its parent. */
  lemma InPlace(c: Config, v: Vol, x: Index, id: nat)
    requires c.Valid() && Inv(c, v, x) && id in v.nodes
    ensures SamePlace(x, x, id) && SameParent(c, x, v, x, id) && CacheOk(x, id, v.nodes[id])
  {
    hide Inv, Owns, Mirrored, BucketOk;
    LiveNode(c, v, x, id);
  }

  /** The blocks of a node all keep their place on the device. */
  ghost predicate Untouched(v: Vol, disk': map<nat, Device.Block>, own: set<nat>) {
    forall b :: b in own && b in v.disk ==> b in disk' && disk'[b] == v.disk[b]
  }

  /** A node that no write concerns. */
  lemma Bystander(c: Config, v: Vol, x: Index, v': Vol, x': Index, id: nat)
    requires c.Valid() && Inv(c, v, x) && id in v.nodes && id in v'.nodes && v'.nodes[id] == v.nodes[id]
    requires id in x.owned && id in x'.owned && x'.owned[id] == x.owned[id] && Untouched(v, v'.disk, x.owned[id])
    requires SamePlace(x, x', id) && SameParent(c, x, v', x', id) && SameChildren(v, v', id)
    ensures Live(c, v', x', id)
  {
    hide Inv, Live, Owns, SamePlace, SameParent, SameChildren, Hangs;
    HeaderOwned(c, v, x, id);
    InPlace(c, v, x, id);
    LiveNode(c, v, x, id);
    forall b | b in x.owned[id] ensures b in v.disk {
      OwnerOf(c, v, x, id, b);
    }
    NodeFrame(c, v, x, v', x', id);
  }

  // ----- writes that concern no node -----

  ghost predicate OwnersKept(v: Vol, x: Index, disk': map<nat, Device.Block>) {
    forall b :: b in x.owner && b in v.disk ==> b in disk' && disk'[b] == v.disk[b]
  }

  /** Anything may be written to blocks no live node owns (wiping, stale blocks). */
  lemma UnownedWrites(c: Config, v: Vol, x: Index, disk': map<nat, Device.Block>)
    requires c.Valid() && Inv(c, v, x) && OwnersKept(v, x, disk')
    ensures Inv(c, v.(disk := disk'), x)
  {
    hide Live, OwnersKept, OwnerOk, FreeOk, IdsOk, TotalCost;
    var v' := v.(disk := disk');
    forall id | id in v'.nodes ensures Live(c, v', x, id) {
      UnownedNode(c, v, x, disk', id);
    }
    UnownedRest(c, v, x, disk');
  }

  lemma UnownedNode(c: Config, v: Vol, x: Index, disk': map<nat, Device.Block>, id: nat)
    requires c.Valid() && Inv(c, v, x) && OwnersKept(v, x, disk') && id in v.nodes
    ensures Live(c, v.(disk := disk'), x, id)
  {
    hide Inv, Live, SamePlace, Hash;
    HeaderOwned(c, v, x, id);
    InPlace(c, v, x, id);
    forall b | b in x.owned[id] ensures b in x.owner { OwnerOf(c, v, x, id, b); }
    Bystander(c, v, x, v.(disk := disk'), x, id);
  }

  lemma UnownedRest(c: Config, v: Vol, x: Index, disk': map<nat, Device.Block>)
    requires OwnersKept(v, x, disk') && OwnerOk(c, v, x) && FreeOk(c, v, x) && IdsOk(v, x)
    ensures var v' := v.(disk := disk');
      OwnerOk(c, v', x) && FreeOk(c, v', x) && IdsOk(v', x)
  {
    SameOwners(c, v, x, v.(disk := disk'));
  }

  lemma SameOwners(c: Config, v: Vol, x: Index, v': Vol)
    requires OwnerOk(c, v, x) && v'.nodes.Keys == v.nodes.Keys && v'.free == v.free
    requires forall b :: b in x.owner && b in v.disk ==> b in v'.disk
    ensures OwnerOk(c, v', x)
  {
    hide OwnsOnly;
    forall b | b in x.owner ensures OwnedBlock(c, v', x, b) {
      assert OwnedBlock(c, v, x, b);
    }
  }

  // ----- replacing the header block of one node -----

  /** Time stamps and caches: one node changes, keeping name, links, tables and layout. */
  ghost function Replaced(v: Vol, id: nat, n: Node): Vol {
    Vol(v.disk[id := n.block], v.nodes[id := n], v.free)
  }

  lemma ReplacedInv(c: Config, v: Vol, x: Index, id: nat, n: Node)
    requires c.Valid() && Inv(c, v, x) && id in v.nodes
    requires SameShape(v.nodes[id], n) && n.Link() == v.nodes[id].Link() && CacheOk(x, id, n)
    ensures Inv(c, Replaced(v, id, n), x)
  {
    hide Live, OwnerOk, FreeOk, IdsOk, TotalCost, SameShape, CacheOk;
    var v' := Replaced(v, id, n);
    forall y | y in v'.nodes ensures Live(c, v', x, y) {
      ReplacedNode(c, v, x, id, n, y);
    }
    ReplacedRest(c, v, x, id, n);
  }

  lemma ReplacedRest(c: Config, v: Vol, x: Index, id: nat, n: Node)
    requires OwnerOk(c, v, x) && FreeOk(c, v, x) && IdsOk(v, x) && id in v.nodes
    ensures var v' := Replaced(v, id, n);
      OwnerOk(c, v', x) && FreeOk(c, v', x) && IdsOk(v', x)
  {
    SameOwners(c, v, x, Replaced(v, id, n));
  }

  lemma ReplacedNode(c: Config, v: Vol, x: Index, id: nat, n: Node, y: nat)
    requires c.Valid() && Inv(c, v, x) && id in v.nodes && y in v.nodes
    requires SameShape(v.nodes[id], n) && n.Link() == v.nodes[id].Link() && CacheOk(x, id, n)
    ensures Live(c, Replaced(v, id, n), x, y)
  {
    hide Inv, Live, CacheOk, SamePlace, Hash, HoldsFile;
    var v' := Replaced(v, id, n);
    HeaderOwned(c, v, x, id);
    InPlace(c, v, x, y);
    if y != id {
      OwnApart(c, v, x, y, id);
      Bystander(c, v, x, v', x, y);
    } else {
      LiveNode(c, v, x, id);
      forall b | b in x.owned[id] ensures b in v.disk {
        OwnerOf(c, v, x, id, b);
      }
      NodeFrame(c, v, x, v', x, id);
    }
  }

  // ----- a new node in a directory -----

  /** A node being created: where it goes, what it is, which free blocks it takes, and the device once
      those blocks are written. */
  datatype Creation = Creation(dir: nat, bucket: nat, path: Path, id: nat, node: Node, own: set<nat>,
                               disk: map<nat, Device.Block>, entry: Entry)

  function NewParent(dn: Node, h: nat, id: nat): Node
    requires dn.DirNode? && (dn.block.Root? || dn.block.UserDir?) && h < |dn.Table()| && h < |dn.buckets|
  {
    DirNode(TableBlock(dn.block, dn.Table()[h := id]), dn.up, dn.entries + [id],
            dn.buckets[h := [id] + dn.buckets[h]])
  }

  predicate IsDir(c: Config, n: Node)
    requires c.Valid()
  {
    n.DirNode? && (n.block.Root? || n.block.UserDir?) && |n.buckets| == |n.Table()| == c.HashSize()
  }

  /** The place is free: the path is unused, the name's bucket is known, the blocks are free, and the
      device has changed on free blocks only. */
  ghost predicate Vacant(c: Config, v: Vol, x: Index, n: Creation)
    requires c.Valid()
  {
    && n.dir in v.nodes && IsDir(c, v.nodes[n.dir]) && n.dir in x.path
    && n.id in n.own && n.own <= v.free && n.own <= n.disk.Keys
    && n.node.up == Some(n.dir) && n.node.Parent() == n.dir
    && n.path == x.path[n.dir] + [Upper(n.node.Name(), c.intl)] && n.path !in x.ids
    && n.bucket == Hash(n.node.Name(), c.intl, c.HashSize())
    && n.node.Link() == FileLayout.At(v.nodes[n.dir].buckets[n.bucket], 0)
    && DiskKept(v, n.disk)
  }

  ghost predicate DiskKept(v: Vol, disk: map<nat, Device.Block>) {
    forall b :: b in v.disk && b !in v.free ==> b in disk && disk[b] == v.disk[b]
  }

  /** The new node on its own: an empty directory, or a file whose blocks are on the device. */
  ghost predicate NewNode(c: Config, n: Creation)
    requires c.Valid()
  {
    && !n.node.block.Root? && Seqs.Distinct(n.node.Own(n.id)) && n.own == Seqs.Elems(n.node.Own(n.id))
    && n.id in n.disk && n.disk[n.id] == n.node.block
    && (if n.node.DirNode? then EmptyDir(c, n.id, n.node) && n.entry == Folder
        else n.entry.Contents? && Seqs.NoZero(n.node.ext) && HoldsFile(c, n.disk, n.id, n.node, n.entry.data))
  }

  ghost predicate EmptyDir(c: Config, id: nat, node: Node)
    requires c.Valid() && node.DirNode?
  {
    && node.entries == [] && |node.buckets| == c.HashSize()
    && (forall h :: 0 <= h < |node.buckets| ==> node.buckets[h] == [])
    && node.block.UserDir? && node.block.ownKey == id
    && |node.block.dirTable| == c.HashSize() && (forall h :: 0 <= h < |node.buckets| ==> node.block.dirTable[h] == 0)
  }

  /** The volume after `_create_node`. */
  ghost function Inserted(c: Config, v: Vol, n: Creation): Vol
    requires c.Valid() && n.dir in v.nodes && IsDir(c, v.nodes[n.dir]) && n.bucket < c.HashSize()
  {
    var dn := NewParent(v.nodes[n.dir], n.bucket, n.id);
    Vol(n.disk[n.dir := dn.block], v.nodes[n.dir := dn][n.id := n.node], v.free - n.own)
  }

  ghost function InsertedIndex(x: Index, n: Creation): Index {
    Index(x.path[n.id := n.path], x.ids[n.path := n.id], x.fs[n.path := n.entry],
          x.owned[n.id := n.own], x.owner + (map b | b in n.own :: n.id))
  }

  /** Creating a node keeps the invariant, adds one path and takes exactly the blocks of the node. */
  lemma InsertInv(c: Config, v: Vol, x: Index, n: Creation)
    requires c.Valid() && Inv(c, v, x) && Vacant(c, v, x, n) && NewNode(c, n)
    ensures Inv(c, Inserted(c, v, n), InsertedIndex(x, n))
  {
    hide Live, NewNode, OwnerOk, FreeOk, IdsOk, TotalCost, Upper, Hash, DiskKept;
    var v', x' := Inserted(c, v, n), InsertedIndex(x, n);
    forall y | y in v'.nodes ensures Live(c, v', x', y) {
      if y == n.id {
        InsertNew(c, v, x, n);
      } else if y == n.dir {
        InsertParent(c, v, x, n);
      } else {
        InsertOther(c, v, x, n, y);
      }
    }
    NewIdFresh(c, v, x, n);
    InsertOwners(c, v, x, n);
    InsertBalance(c, v, x, n);
  }

  /** Free blocks belong to nobody. */
  lemma FreeUnowned(c: Config, v: Vol, x: Index, b: nat)
    requires c.Valid() && Inv(c, v, x) && b in v.free
    ensures b !in x.owner && b !in v.nodes && b != 0 && InRange(c.g, b) && b !in c.sys
  {
    hide IdsOk, AllLive, Balanced, OwnsOnly;
    assert b in x.owner ==> OwnedBlock(c, v, x, b);
    if b in v.nodes {
      hide Inv, OwnerOk, Indexed, Mirrored;
      HeaderOwned(c, v, x, b);
      OwnerOf(c, v, x, b, b);
    }
  }

  lemma NewIdFresh(c: Config, v: Vol, x: Index, n: Creation)
    requires c.Valid() && Inv(c, v, x) && n.id in n.own && n.own <= v.free
    ensures n.id !in v.nodes && n.id != 0 && n.id != c.root
    ensures forall b :: b in n.own ==> b !in x.owner && b !in v.nodes
  {
    hide *;
    forall b | b in n.own ensures b !in x.owner && b !in v.nodes { FreeUnowned(c, v, x, b); }
    FreeUnowned(c, v, x, n.id);
    RootLive(c, v, x);
  }

  lemma RootLive(c: Config, v: Vol, x: Index)
    requires c.Valid() && Inv(c, v, x)
    ensures c.root in v.nodes
  {
    hide IdsOk, OwnerOk, FreeOk, AllLive, Balanced;
  }

  lemma InsertOwners(c: Config, v: Vol, x: Index, n: Creation)
    requires c.Valid() && OwnerOk(c, v, x) && FreeOk(c, v, x) && IdsOk(v, x)
    requires n.dir in v.nodes && IsDir(c, v.nodes[n.dir]) && n.bucket < c.HashSize()
    requires n.own <= v.free && n.own <= n.disk.Keys && n.id !in v.nodes && n.path !in x.ids
    requires (forall b :: b in n.own ==> b !in x.owner) && DiskKept(v, n.disk)
    ensures var v', x' := Inserted(c, v, n), InsertedIndex(x, n);
      IdsOk(v', x') && OwnerOk(c, v', x') && FreeOk(c, v', x')
  {
    hide IsDir, InRange, OwnerOk, FreeOk, IdsOk, NewParent;
    InsertIds(c, v, x, n);
    InsertOwnerOk(c, v, x, n);
    InsertFreeOk(c, v, x, n);
  }

  lemma InsertIds(c: Config, v: Vol, x: Index, n: Creation)
    requires c.Valid() && IdsOk(v, x) && n.id !in v.nodes && n.path !in x.ids
    requires n.dir in v.nodes && IsDir(c, v.nodes[n.dir]) && n.bucket < c.HashSize()
    ensures IdsOk(Inserted(c, v, n), InsertedIndex(x, n))
  {
    hide IsDir, NewParent;
  }

  lemma InsertFreeOk(c: Config, v: Vol, x: Index, n: Creation)
    requires c.Valid() && FreeOk(c, v, x)
    requires n.dir in v.nodes && IsDir(c, v.nodes[n.dir]) && n.bucket < c.HashSize()
    ensures FreeOk(c, Inserted(c, v, n), InsertedIndex(x, n))
  {
    hide IsDir, NewParent, InRange;
  }

  lemma InsertOwnerOk(c: Config, v: Vol, x: Index, n: Creation)
    requires c.Valid() && OwnerOk(c, v, x) && FreeOk(c, v, x) && n.own <= v.free && n.own <= n.disk.Keys
    requires n.dir in v.nodes && IsDir(c, v.nodes[n.dir]) && n.bucket < c.HashSize()
    requires n.id !in v.nodes && (forall b :: b in n.own ==> b !in x.owner) && DiskKept(v, n.disk)
    ensures OwnerOk(c, Inserted(c, v, n), InsertedIndex(x, n))
  {
    hide IsDir, NewParent, InRange;
    var v', x' := Inserted(c, v, n), InsertedIndex(x, n);
    forall id | id in x'.owned ensures OwnsOnly(x', id) {
      if id != n.id { assert OwnsOnly(x, id); }
    }
    forall b | b in x'.owner ensures OwnedBlock(c, v', x', b) {
      if b in x.owner { assert OwnedBlock(c, v, x, b); }
    }
  }

  lemma InsertBalance(c: Config, v: Vol, x: Index, n: Creation)
    requires c.Valid() && Vacant(c, v, x, n) && NewNode(c, n) && Balanced(c, v, x) && IdsOk(v, x)
    ensures Balanced(c, Inserted(c, v, n), InsertedIndex(x, n))
  {
    hide TotalCost, Hash, Upper, FileLayout.NumData, FileLayout.NumList, FileLayout.ListsOnDisk;
    hide FileLayout.DataOnDisk, Seqs.Distinct, Seqs.Elems;
    Seqs.DistinctCard(n.node.Own(n.id));
    Seqs.SubsetCard(n.own, v.free);
    var fs' := x.fs[n.path := n.entry];
    CostOfOne(c, fs', n.path);
    assert fs' - {n.path} == x.fs;
  }

  lemma InsertOther(c: Config, v: Vol, x: Index, n: Creation, y: nat)
    requires c.Valid() && Inv(c, v, x) && Vacant(c, v, x, n) && y in v.nodes && y != n.dir
    ensures Live(c, Inserted(c, v, n), InsertedIndex(x, n), y)
  {
    hide Inv, Live, Hash, Upper, Mirrored, IsParent, FileLayout.At, DiskKept, NewParent, Untouched;
    var v', x' := Inserted(c, v, n), InsertedIndex(x, n);
    NewIdFresh(c, v, x, n);
    InPlace(c, v, x, y);
    HeaderOwned(c, v, x, y);
    if v.nodes[y].up.Some? { ChildStays(c, v, n, v.nodes[y].up.value, y); }
    InsertUntouched(c, v, x, n, y);
    ChildrenStay(c, v, n, y);
    Bystander(c, v, x, v', x', y);
  }

  lemma InsertUntouched(c: Config, v: Vol, x: Index, n: Creation, y: nat)
    requires c.Valid() && Inv(c, v, x) && Vacant(c, v, x, n) && y in v.nodes && y != n.dir
    ensures y in x.owned && Untouched(v, Inserted(c, v, n).disk, x.owned[y])
  {
    hide Inv, Hash, Upper, Mirrored, Indexed, NewParent;
    OwnApart(c, v, x, y, n.dir);
    forall b | b in x.owned[y] && b in v.disk ensures b in n.disk && n.disk[b] == v.disk[b] {
      OwnerOf(c, v, x, y, b);
    }
  }

  lemma ChildrenStay(c: Config, v: Vol, n: Creation, y: nat)
    requires c.Valid() && n.dir in v.nodes && IsDir(c, v.nodes[n.dir]) && n.bucket < c.HashSize() && n.id !in v.nodes
    ensures SameChildren(v, Inserted(c, v, n), y)
  {
  }

  lemma InsertParent(c: Config, v: Vol, x: Index, n: Creation)
    requires c.Valid() && Inv(c, v, x) && Vacant(c, v, x, n)
    ensures Live(c, Inserted(c, v, n), InsertedIndex(x, n), n.dir)
  {
    hide Inv, Hash, Upper, DiskKept, DirOk, FileOk, FileLayout.At;
    NewIdFresh(c, v, x, n);
    LiveNode(c, v, x, n.dir);
    InsertParentDir(c, v, x, n);
    var dn, dn' := v.nodes[n.dir], NewParent(v.nodes[n.dir], n.bucket, n.id);
    assert dn'.Own(n.dir) == dn.Own(n.dir);
    assert Hangs(c, Inserted(c, v, n), InsertedIndex(x, n), n.dir) by {
      hide Inserted, TableBlock;
      if n.dir != c.root { ParentGrows(c, v, n, v.nodes[n.dir].up.value, n.dir); }
    }
  }

  /** Adding an entry leaves every child of a directory hanging where it was. */
  lemma ParentGrows(c: Config, v: Vol, n: Creation, d: nat, id: nat)
    requires c.Valid() && n.dir in v.nodes && IsDir(c, v.nodes[n.dir]) && n.bucket < c.HashSize()
    requires id in v.nodes && id != n.id && d != n.id && IsParent(c, v, d, id)
    ensures IsParent(c, Inserted(c, v, n), d, id)
  {
    hide Hash;
  }

  lemma ChildStays(c: Config, v: Vol, n: Creation, d: nat, id: nat)
    requires c.Valid() && n.dir in v.nodes && IsDir(c, v.nodes[n.dir]) && n.bucket < c.HashSize()
    requires id in v.nodes && n.id !in v.nodes && IsParent(c, v, d, id)
    ensures IsParent(c, Inserted(c, v, n), d, id) && d in v.nodes
  {
    hide Hash, Inserted, NewParent;
    ParentGrows(c, v, n, d, id);
  }

  lemma InsertParentDir(c: Config, v: Vol, x: Index, n: Creation)
    requires c.Valid() && Vacant(c, v, x, n) && n.id !in v.nodes && n.id != c.root
    requires n.dir in x.path && x.path[n.dir] in x.fs && DirOk(c, v, x, n.dir)
    ensures DirOk(c, Inserted(c, v, n), InsertedIndex(x, n), n.dir)
  {
    hide BucketOk, Hash, Upper, DiskKept, Seqs.Elems, Seqs.Distinct, IsChild;
    var dn, dn' := v.nodes[n.dir], NewParent(v.nodes[n.dir], n.bucket, n.id);
    var v' := Inserted(c, v, n);
    NotYetChild(v, n.dir, n.id);
    Seqs.DistinctAppend(dn.entries, n.id);
    forall e | e in dn'.entries ensures e != c.root && IsChild(v', n.dir, e) { InsertedChild(c, v, x, n, e); }
    forall k | 0 <= k < |dn'.buckets| ensures BucketOk(c, v', n.dir, k, dn'.buckets[k], dn'.Table()[k]) {
      InsertBucket(c, v, x, n, k);
    }
  }

  lemma NotYetChild(v: Vol, d: nat, id: nat)
    requires id !in v.nodes
    ensures !IsChild(v, d, id)
  {
  }

  lemma InsertedChild(c: Config, v: Vol, x: Index, n: Creation, e: nat)
    requires c.Valid() && Vacant(c, v, x, n) && n.id !in v.nodes
    requires e == n.id || IsChild(v, n.dir, e)
    ensures IsChild(Inserted(c, v, n), n.dir, e)
  {
    hide Hash, Upper, DiskKept;
  }

  /** The bucket of the new name has the new node in front, the others stay. */
  lemma InsertBucket(c: Config, v: Vol, x: Index, n: Creation, k: nat)
    requires c.Valid() && Vacant(c, v, x, n) && n.id !in v.nodes && n.id != c.root
    requires k < |v.nodes[n.dir].buckets| == |v.nodes[n.dir].Table()| == c.HashSize()
    requires BucketOk(c, v, n.dir, k, v.nodes[n.dir].buckets[k], v.nodes[n.dir].Table()[k])
    ensures var dn' := NewParent(v.nodes[n.dir], n.bucket, n.id);
      BucketOk(c, Inserted(c, v, n), n.dir, k, dn'.buckets[k], dn'.Table()[k])
  {
    hide BucketOk, Hash, Upper, DiskKept;
    var dn, v' := v.nodes[n.dir], Inserted(c, v, n);
    if k == n.bucket {
      PushFront(c, v, v', n.dir, k, dn.buckets[k], dn.Table()[k], n.id);
    } else {
      BucketFrame(c, v, v', n.dir, k, dn.buckets[k], dn.Table()[k]);
    }
  }

  lemma PushFront(c: Config, v: Vol, v': Vol, d: nat, h: nat, bucket: seq<nat>, first: nat, id: nat)
    requires c.Valid() && BucketOk(c, v, d, h, bucket, first) && SameChildren(v, v', d)
    requires id !in v.nodes && id in v'.nodes && id != c.root && v'.nodes[id].up == Some(d)
    requires Hash(v'.nodes[id].Name(), c.intl, c.HashSize()) == h && v'.nodes[id].Link() == FileLayout.At(bucket, 0)
    ensures BucketOk(c, v', d, h, [id] + bucket, id)
  {
    hide Hash;
    var b' := [id] + bucket;
    forall i | 0 <= i < |b'| ensures InChain(c, v', d, h, b', i) && (i > 0 ==> b'[i] != id) {
      if i > 0 {
        assert InChain(c, v, d, h, bucket, i - 1) && IsChild(v, d, bucket[i - 1]);
      }
    }
  }

  lemma InsertNew(c: Config, v: Vol, x: Index, n: Creation)
    requires c.Valid() && Inv(c, v, x) && Vacant(c, v, x, n) && NewNode(c, n)
    ensures Live(c, Inserted(c, v, n), InsertedIndex(x, n), n.id)
  {
    NewIdFresh(c, v, x, n);
    HeaderOwned(c, v, x, n.dir);
    InsertHangs(c, v, x, n);
    InsertPlace(c, v, x, n);
    hide Inv, Hash, Upper, DiskKept, NewNode, DirOk, FileOk, Hangs, Inserted, InsertedIndex, Mirrored, Indexed, Owns;
    if n.node.FileNode? {
      InsertFile(c, v, x, n);
    } else {
      InsertDir(c, v, x, n);
    }
  }

  /** The new node has its block, its place in the index and its own blocks. */
  lemma InsertPlace(c: Config, v: Vol, x: Index, n: Creation)
    requires c.Valid() && Vacant(c, v, x, n) && NewNode(c, n) && n.id !in v.nodes && n.id != n.dir
    ensures var v', x' := Inserted(c, v, n), InsertedIndex(x, n);
      && n.id in v'.nodes && v'.nodes[n.id] == n.node && Mirrored(v', n.id) && Indexed(v', x', n.id)
      && Owns(v', x', n.id)
  {
    hide Hash, Upper, DiskKept, EmptyDir, HoldsFile, Seqs.Distinct, Seqs.Elems;
  }

  lemma InsertHangs(c: Config, v: Vol, x: Index, n: Creation)
    requires c.Valid() && Vacant(c, v, x, n) && NewNode(c, n) && n.id != c.root && n.id != n.dir
    ensures Hangs(c, Inserted(c, v, n), InsertedIndex(x, n), n.id)
  {
    hide Hash, Upper, DiskKept, EmptyDir, HoldsFile;
  }

  lemma InsertDir(c: Config, v: Vol, x: Index, n: Creation)
    requires c.Valid() && Vacant(c, v, x, n) && NewNode(c, n) && n.node.DirNode? && n.id != n.dir
    ensures DirOk(c, Inserted(c, v, n), InsertedIndex(x, n), n.id)
  {
    hide Hash, Upper, DiskKept, Seqs.Elems;
  }

  lemma InsertFile(c: Config, v: Vol, x: Index, n: Creation)
    requires c.Valid() && Vacant(c, v, x, n) && NewNode(c, n) && n.node.FileNode? && n.dir !in n.own
    ensures FileOk(c, Inserted(c, v, n), InsertedIndex(x, n), n.id)
  {
    hide Hash, Upper, DiskKept, FileLayout.BodyOnDisk, FileLayout.HeaderOk, Seqs.Distinct;
    forall b | b in n.node.ext || b in n.node.dat ensures b in n.own {
      assert b in n.node.Own(n.id);
    }
    FileLayout.BodyFrame(c.g, c.ffs, n.disk, Inserted(c, v, n).disk, n.id, n.node.ext, n.node.dat, n.entry.data);
  }
}
