/** The state change of `_delete` and why it keeps the volume invariant. */
module VolumeRemoval {
  import opened Bytes
  import opened Seqs
  import FileNames
  import FileLayout
  import opened VolumeState
  import VolumeSteps

  /** Node `id`, at position `pos` in bucket `bucket` of directory `dir`, is to go. */
  datatype Removal = Removal(dir: nat, bucket: nat, pos: nat, id: nat)

  ghost predicate Removable(c: Config, v: Vol, r: Removal)
    requires c.Valid()
  {
    && r.id in v.nodes && r.id != c.root && v.nodes[r.id].up == Some(r.dir)
    && (v.nodes[r.id].DirNode? ==> v.nodes[r.id].entries == [])
    && r.dir in v.nodes && r.dir != r.id && VolumeSteps.IsDir(c, v.nodes[r.dir])
    && r.bucket == FileNames.Hash(v.nodes[r.id].Name(), c.intl, c.HashSize())
    && r.pos < |v.nodes[r.dir].buckets[r.bucket]| && v.nodes[r.dir].buckets[r.bucket][r.pos] == r.id
    && (r.pos > 0 ==> HasPrev(v, r.dir, r.id, v.nodes[r.dir].buckets[r.bucket][r.pos - 1]))
  }

  /** The entry in front of the removed one is another child of the directory. */
  ghost predicate HasPrev(v: Vol, dir: nat, id: nat, prev: nat) {
    && prev in v.nodes && prev != dir && prev != id && v.nodes[prev].up == Some(dir)
    && (v.nodes[prev].block.UserDir? || v.nodes[prev].block.FileHeader?)
  }

  function LessParent(dn: Node, h: nat, pos: nat, id: nat): Node
    requires dn.DirNode? && (dn.block.Root? || dn.block.UserDir?) && h < |dn.Table()| && h < |dn.buckets|
  {
    var block := if pos == 0 then TableBlock(dn.block, dn.Table()[h := FileLayout.At(dn.buckets[h], 1)]) else dn.block;
    DirNode(block, dn.up, Without(dn.entries, id), dn.buckets[h := Without(dn.buckets[h], id)])
  }

  /** The volume after `_delete`: one chain link rewritten, one node gone, its blocks free. */
  ghost function Removed(c: Config, v: Vol, r: Removal): Vol
    requires c.Valid() && Removable(c, v, r)
  {
    var dn := v.nodes[r.dir];
    var dn' := LessParent(dn, r.bucket, r.pos, r.id);
    var nodes, free := (v.nodes - {r.id})[r.dir := dn'], v.free + Elems(v.nodes[r.id].Own(r.id));
    if r.pos == 0 then Vol(v.disk[r.dir := dn'.block], nodes, free) else
      var prev := dn.buckets[r.bucket][r.pos - 1];
      var pn := v.nodes[prev].WithLink(FileLayout.At(dn.buckets[r.bucket], r.pos + 1));
      Vol(v.disk[prev := pn.block], nodes[prev := pn], free)
  }

  ghost function RemovedIndex(x: Index, id: nat): Index
    requires id in x.path && id in x.owned
  {
    Index(x.path - {id}, x.ids - {x.path[id]}, x.fs - {x.path[id]}, x.owned - {id}, x.owner - x.owned[id])
  }

  /** Deleting a node keeps the invariant, removes one path and frees exactly the node's blocks. */
  lemma RemoveInv(c: Config, v: Vol, x: Index, r: Removal)
    requires c.Valid() && Inv(c, v, x) && Removable(c, v, r)
    ensures r.id in x.path && r.id in x.owned && Inv(c, Removed(c, v, r), RemovedIndex(x, r.id))
  {
    hide Live, OwnerOk, FreeOk, IdsOk, TotalCost, FileNames.Hash, LessParent, Indexed, Mirrored;
    VolumeSteps.HeaderOwned(c, v, x, r.id);
    RemovedNodes(c, v, r);
    VolumeSteps.RootLive(c, v, x);
    NodeOwns(c, v, x, r.id);
    var v', x' := Removed(c, v, r), RemovedIndex(x, r.id);
    forall y | y in v'.nodes ensures Live(c, v', x', y) {
      if y == r.dir {
        RemoveParent(c, v, x, r);
      } else if IsPrev(c, v, r, y) {
        RemovePrev(c, v, x, r, y);
      } else {
        RemoveOther(c, v, x, r, y);
      }
    }
    VolumeSteps.LiveNode(c, v, x, r.id);
    RemoveIds(c, v, x, r);
    RemoveOwnerOk(c, v, x, r);
    RemoveFreeOk(c, v, x, r);
    RemoveBalance(c, v, x, r);
  }

  lemma NodeOwns(c: Config, v: Vol, x: Index, id: nat)
    requires c.Valid() && Inv(c, v, x) && id in v.nodes
    ensures id in x.path && id in x.owned && Owns(v, x, id)
  {
    hide Inv, Hangs, DirOk, FileOk;
    VolumeSteps.LiveNode(c, v, x, id);
  }

  ghost predicate IsPrev(c: Config, v: Vol, r: Removal, y: nat)
    requires c.Valid() && Removable(c, v, r)
  {
    r.pos > 0 && y == v.nodes[r.dir].buckets[r.bucket][r.pos - 1]
  }

  /** Nodes after the step: parent and predecessor change, the rest stays. */
  lemma RemovedNodes(c: Config, v: Vol, r: Removal)
    requires c.Valid() && Removable(c, v, r)
    ensures Removed(c, v, r).nodes.Keys == v.nodes.Keys - {r.id}
    ensures Removed(c, v, r).free == v.free + Elems(v.nodes[r.id].Own(r.id))
    ensures forall y :: y in v.nodes && y != r.id ==> var m := Removed(c, v, r).nodes[y];
      && m.up == v.nodes[y].up && m.Name() == v.nodes[y].Name() && m.block.Root? == v.nodes[y].block.Root?
      && (y != r.dir && !IsPrev(c, v, r, y) ==> m == v.nodes[y])
      && (!IsPrev(c, v, r, y) ==> m.Link() == v.nodes[y].Link())
  {
    hide FileNames.Hash, FileLayout.At, Elems, Without, Removed, Removable;
    RemovedKeys(c, v, r);
    forall y | y in v.nodes && y != r.id ensures RemovedAs(c, v, r, y, Removed(c, v, r).nodes[y]) {
      RemovedNode(c, v, r, y);
    }
  }

  /** What becomes of another node. */
  ghost predicate RemovedAs(c: Config, v: Vol, r: Removal, y: nat, m: Node)
    requires c.Valid() && Removable(c, v, r) && y in v.nodes
  {
    && m.up == v.nodes[y].up && m.Name() == v.nodes[y].Name() && m.block.Root? == v.nodes[y].block.Root?
    && (y != r.dir && !IsPrev(c, v, r, y) ==> m == v.nodes[y])
    && (!IsPrev(c, v, r, y) ==> m.Link() == v.nodes[y].Link())
  }

  lemma RemovedNode(c: Config, v: Vol, r: Removal, y: nat)
    requires c.Valid() && Removable(c, v, r) && y in v.nodes && y != r.id && y in Removed(c, v, r).nodes
    ensures RemovedAs(c, v, r, y, Removed(c, v, r).nodes[y])
  {
    hide FileNames.Hash, FileLayout.At, Elems, Without;
  }

  lemma RemoveIds(c: Config, v: Vol, x: Index, r: Removal)
    requires c.Valid() && Removable(c, v, r) && IdsOk(v, x) && r.id in x.owned && Indexed(v, x, r.id)
    ensures IdsOk(Removed(c, v, r), RemovedIndex(x, r.id))
  {
    hide Removed, Removable;
    RemovedKeys(c, v, r);
  }

  lemma RemovedKeys(c: Config, v: Vol, r: Removal)
    requires c.Valid() && Removable(c, v, r)
    ensures Removed(c, v, r).nodes.Keys == v.nodes.Keys - {r.id}
    ensures Removed(c, v, r).free == v.free + Elems(v.nodes[r.id].Own(r.id))
  {
    hide FileNames.Hash, FileLayout.At, Elems;
  }

  lemma RemoveFreeOk(c: Config, v: Vol, x: Index, r: Removal)
    requires c.Valid() && Removable(c, v, r) && FreeOk(c, v, x) && OwnerOk(c, v, x) && r.id in x.path
      && Owns(v, x, r.id)
    ensures FreeOk(c, Removed(c, v, r), RemovedIndex(x, r.id))
  {
    hide Removed, Removable, InRange, OwnerOk, Elems;
    var v', x', gone := Removed(c, v, r), RemovedIndex(x, r.id), x.owned[r.id];
    RemovedKeys(c, v, r);
    OwnedFacts(c, v, x, r.id);
    assert v'.free == v.free + gone;
    forall b | b in v'.free ensures InRange(c.g, b) && b !in c.sys { }
    forall b | InRange(c.g, b) && b !in v'.free && b !in c.sys ensures b in x'.owner { assert b in x.owner; }
  }

  lemma OwnedFacts(c: Config, v: Vol, x: Index, id: nat)
    requires OwnerOk(c, v, x) && id in x.owned
    ensures forall b :: b in x.owned[id] ==> InRange(c.g, b) && b !in c.sys
  {
    assert OwnsOnly(x, id);
    forall b | b in x.owned[id] ensures InRange(c.g, b) && b !in c.sys { assert OwnedBlock(c, v, x, b); }
  }

  lemma RemoveOwnerOk(c: Config, v: Vol, x: Index, r: Removal)
    requires c.Valid() && Removable(c, v, r) && OwnerOk(c, v, x) && r.id in x.path && Owns(v, x, r.id)
    ensures OwnerOk(c, Removed(c, v, r), RemovedIndex(x, r.id))
  {
    RemovedNodes(c, v, r);
    hide Removed, Removable, OwnedBlock, OwnsOnly, Owns;
    var v', x' := Removed(c, v, r), RemovedIndex(x, r.id);
    forall id | id in x'.owned ensures OwnsOnly(x', id) {
      OwnsOnlyLess(x, r.id, id);
    }
    forall b | b in x'.owner ensures OwnedBlock(c, v', x', b) {
      StillOwned(c, v, x, r, b);
    }
  }

  lemma OwnsOnlyLess(x: Index, gone: nat, id: nat)
    requires gone in x.path && gone in x.owned && id in x.owned && id != gone && OwnsOnly(x, gone) && OwnsOnly(x, id)
    ensures OwnsOnly(RemovedIndex(x, gone), id)
  {
  }

  lemma StillOwned(c: Config, v: Vol, x: Index, r: Removal, b: nat)
    requires c.Valid() && Removable(c, v, r) && OwnerOk(c, v, x) && r.id in x.path && Owns(v, x, r.id)
    requires b in x.owner && b !in x.owned[r.id]
    ensures OwnedBlock(c, Removed(c, v, r), RemovedIndex(x, r.id), b)
  {
    hide Removed, Removable, InRange, Elems;
    RemovedKeys(c, v, r);
    RemovedDisk(c, v, r);
    assert OwnedBlock(c, v, x, b);
  }

  lemma RemovedDisk(c: Config, v: Vol, r: Removal)
    requires c.Valid() && Removable(c, v, r)
    ensures forall b :: b in v.disk ==> b in Removed(c, v, r).disk
    ensures forall b :: b in v.disk && b != r.dir && !IsPrev(c, v, r, b) ==> Removed(c, v, r).disk[b] == v.disk[b]
  {
    hide FileNames.Hash, FileLayout.At, Elems;
  }

  lemma RemoveBalance(c: Config, v: Vol, x: Index, r: Removal)
    requires c.Valid() && Removable(c, v, r) && Balanced(c, v, x) && OwnerOk(c, v, x) && Live(c, v, x, r.id)
    ensures Balanced(c, Removed(c, v, r), RemovedIndex(x, r.id))
  {
    hide TotalCost, FileNames.Hash, Hangs, BucketOk, InRange, Mirrored, Removable, Removed;
    hide FileLayout.ListsOnDisk, FileLayout.DataOnDisk, Distinct, Elems;
    RemovedNodes(c, v, r);
    var own := v.nodes[r.id].Own(r.id);
    DistinctCard(own);
    forall b | b in x.owned[r.id] ensures b !in v.free {
      assert OwnsOnly(x, r.id) && OwnedBlock(c, v, x, b);
    }
    assert |v.free + x.owned[r.id]| == |v.free| + |own|;
    CostOfOne(c, x.fs, x.path[r.id]);
  }

  /** The node to go has no children, and no node is its own parent. */
  lemma NoOrphans(c: Config, v: Vol, x: Index, r: Removal, y: nat)
    requires c.Valid() && Inv(c, v, x) && Removable(c, v, r) && y in v.nodes
    ensures v.nodes[y].up != Some(r.id) && v.nodes[y].up != Some(y)
  {
    hide Inv, FileNames.Hash, Mirrored, Owns, DirOk, FileOk;
    VolumeSteps.LiveNode(c, v, x, y);
    if v.nodes[y].up.Some? {
      var u := v.nodes[y].up.value;
      assert IsParent(c, v, u, y) && |x.path[y]| == |x.path[u]| + 1;
    }
  }

  /** Taking an entry away leaves every other child hanging where it was. */
  lemma ParentShrinks(c: Config, v: Vol, r: Removal, d: nat, id: nat)
    requires c.Valid() && Removable(c, v, r) && id in v.nodes && id != r.id && d != r.id && IsParent(c, v, d, id)
    requires Distinct(v.nodes[r.dir].entries) && Distinct(v.nodes[r.dir].buckets[r.bucket])
      && r.id in v.nodes[r.dir].entries
    ensures IsParent(c, Removed(c, v, r), d, id)
  {
    hide FileNames.Hash, Distinct, Without, Elems, FileLayout.At;
    WithoutElems(v.nodes[r.dir].entries, r.id);
    WithoutElems(v.nodes[r.dir].buckets[r.bucket], r.id);
  }

  /** Every other node keeps its place in the index and under its parent. */
  lemma KeepsPlace(c: Config, v: Vol, x: Index, r: Removal, y: nat)
    requires c.Valid() && Inv(c, v, x) && Removable(c, v, r) && r.id in x.path && r.id in x.owned
    requires y in v.nodes && y != r.id
    ensures SamePlace(x, RemovedIndex(x, r.id), y)
    ensures y in Removed(c, v, r).nodes && SameParent(c, x, Removed(c, v, r), RemovedIndex(x, r.id), y)
  {
    hide Inv, Live, FileNames.Hash, IsParent, Removed, Mirrored;
    RemovedNodes(c, v, r);
    VolumeSteps.HeaderOwned(c, v, x, y);
    VolumeSteps.HeaderOwned(c, v, x, r.id);
    NoOrphans(c, v, x, r, y);
    VolumeSteps.InPlace(c, v, x, y);
    if v.nodes[y].up.Some? {
      BucketFacts(c, v, x, r);
      ParentShrinks(c, v, r, v.nodes[y].up.value, y);
    }
  }

  lemma BucketFacts(c: Config, v: Vol, x: Index, r: Removal)
    requires c.Valid() && Inv(c, v, x) && Removable(c, v, r)
    ensures Distinct(v.nodes[r.dir].entries) && r.id in v.nodes[r.dir].entries
    ensures BucketOk(c, v, r.dir, r.bucket, v.nodes[r.dir].buckets[r.bucket], v.nodes[r.dir].Table()[r.bucket])
  {
    hide Inv, FileNames.Hash, BucketOk, Distinct, FileOk, Owns, Mirrored;
    VolumeSteps.LiveNode(c, v, x, r.dir);
    VolumeSteps.LiveNode(c, v, x, r.id);
  }

  lemma RemoveOther(c: Config, v: Vol, x: Index, r: Removal, y: nat)
    requires c.Valid() && Inv(c, v, x) && Removable(c, v, r) && r.id in x.path && r.id in x.owned
    requires y in v.nodes && y != r.id && y != r.dir && !IsPrev(c, v, r, y)
    ensures Live(c, Removed(c, v, r), RemovedIndex(x, r.id), y)
  {
    hide Inv, Live, FileNames.Hash, Removed, SamePlace, SameParent, Mirrored, Indexed;
    RemovedNodes(c, v, r);
    RemovedDisk(c, v, r);
    VolumeSteps.OwnApart(c, v, x, y, r.dir);
    VolumeSteps.OwnApart(c, v, x, y, r.id);
    if r.pos > 0 { VolumeSteps.OwnApart(c, v, x, y, v.nodes[r.dir].buckets[r.bucket][r.pos - 1]); }
    KeepsPlace(c, v, x, r, y);
    VolumeSteps.Bystander(c, v, x, Removed(c, v, r), RemovedIndex(x, r.id), y);
  }

  lemma RemovePrev(c: Config, v: Vol, x: Index, r: Removal, y: nat)
    requires c.Valid() && Inv(c, v, x) && Removable(c, v, r) && r.id in x.path && r.id in x.owned
    requires IsPrev(c, v, r, y)
    ensures Live(c, Removed(c, v, r), RemovedIndex(x, r.id), y)
  {
    hide Inv, Live, FileNames.Hash, SamePlace, SameParent, Indexed, Removed;
    RemovedNodes(c, v, r);
    RemovedDisk(c, v, r);
    VolumeSteps.OwnApart(c, v, x, y, r.id);
    VolumeSteps.OwnApart(c, v, x, y, r.dir);
    KeepsPlace(c, v, x, r, y);
    NoOrphans(c, v, x, r, y);
    VolumeSteps.LiveNode(c, v, x, y);
    PrevNode(c, v, x, r, y);
    forall b | b in x.owned[y] ensures b in v.disk { VolumeSteps.OwnerOf(c, v, x, y, b); }
    NodeFrame(c, v, x, Removed(c, v, r), RemovedIndex(x, r.id), y);
  }

  lemma PrevNode(c: Config, v: Vol, x: Index, r: Removal, y: nat)
    requires c.Valid() && Inv(c, v, x) && Removable(c, v, r) && IsPrev(c, v, r, y)
    ensures var v' := Removed(c, v, r);
      && y in v'.nodes && Mirrored(v', y) && SameShape(v.nodes[y], v'.nodes[y]) && CacheOk(x, y, v'.nodes[y])
      && v'.nodes[y].Link() == FileLayout.At(v.nodes[r.dir].buckets[r.bucket], r.pos + 1)
  {
    hide Inv, FileNames.Hash, FileLayout.At, SamePlace, SameParent;
    VolumeSteps.InPlace(c, v, x, y);
  }

  lemma RemoveParent(c: Config, v: Vol, x: Index, r: Removal)
    requires c.Valid() && Inv(c, v, x) && Removable(c, v, r) && r.id in x.path && r.id in x.owned
    ensures Live(c, Removed(c, v, r), RemovedIndex(x, r.id), r.dir)
  {
    hide Inv, FileNames.Hash, Removed, DirOk, FileOk, IsParent;
    RemovedNodes(c, v, r);
    VolumeSteps.LiveNode(c, v, x, r.dir);
    KeepsPlace(c, v, x, r, r.dir);
    ParentNode(c, v, r);
    RemoveParentDir(c, v, x, r);
  }

  lemma ParentNode(c: Config, v: Vol, r: Removal)
    requires c.Valid() && Removable(c, v, r) && Mirrored(v, r.dir)
    ensures var v' := Removed(c, v, r);
      r.dir in v'.nodes && Mirrored(v', r.dir) && v'.nodes[r.dir] == LessParent(v.nodes[r.dir], r.bucket, r.pos, r.id)
  {
    hide FileNames.Hash, FileLayout.At;
  }

  /** The directory without the entry: one chain link bypasses it, the other chains stay. */
  lemma RemoveParentDir(c: Config, v: Vol, x: Index, r: Removal)
    requires c.Valid() && Inv(c, v, x) && Removable(c, v, r) && r.id in x.path && r.id in x.owned
    requires r.dir in x.path && x.path[r.dir] in x.fs && DirOk(c, v, x, r.dir)
    requires r.dir in Removed(c, v, r).nodes && SamePlace(x, RemovedIndex(x, r.id), r.dir)
    ensures DirOk(c, Removed(c, v, r), RemovedIndex(x, r.id), r.dir)
  {
    hide Inv, BucketOk, FileNames.Hash, Removed, Without, Indexed, Owns, Distinct;
    var v' := Removed(c, v, r);
    VolumeSteps.HeaderOwned(c, v, x, r.id);
    RemovedNodes(c, v, r);
    KeepsPlace(c, v, x, r, r.dir);
    VolumeSteps.LiveNode(c, v, x, r.dir);
    ParentNode(c, v, r);
    BucketFacts(c, v, x, r);
    var dn, dn' := v.nodes[r.dir], v'.nodes[r.dir];
    WithoutElems(dn.entries, r.id);
    forall e | e in dn'.entries ensures e != c.root && IsChild(v', r.dir, e) {
      assert IsChild(v, r.dir, e);
    }
    forall k | 0 <= k < |dn'.buckets| ensures BucketOk(c, v', r.dir, k, dn'.buckets[k], dn'.Table()[k]) {
      if k == r.bucket {
        Bypass(c, v, r);
      } else {
        OtherBucket(c, v, r, k);
      }
    }
  }

  lemma OtherBucket(c: Config, v: Vol, r: Removal, k: nat)
    requires c.Valid() && Removable(c, v, r) && k < c.HashSize() && k != r.bucket
    requires BucketOk(c, v, r.dir, k, v.nodes[r.dir].buckets[k], v.nodes[r.dir].Table()[k])
    requires BucketOk(c, v, r.dir, r.bucket, v.nodes[r.dir].buckets[r.bucket], v.nodes[r.dir].Table()[r.bucket])
    ensures BucketOk(c, Removed(c, v, r), r.dir, k, v.nodes[r.dir].buckets[k], v.nodes[r.dir].Table()[k])
  {
    hide FileNames.Hash, Removed, FileLayout.At, Distinct;
    RemovedNodes(c, v, r);
    var bucket, bk := v.nodes[r.dir].buckets[k], v.nodes[r.dir].buckets[r.bucket];
    assert r.pos > 0 ==> InChain(c, v, r.dir, r.bucket, bk, r.pos - 1);
    forall i | 0 <= i < |bucket| ensures InChain(c, Removed(c, v, r), r.dir, k, bucket, i) {
      assert InChain(c, v, r.dir, k, bucket, i);
    }
  }

  lemma Bypass(c: Config, v: Vol, r: Removal)
    requires c.Valid() && Removable(c, v, r)
    requires BucketOk(c, v, r.dir, r.bucket, v.nodes[r.dir].buckets[r.bucket], v.nodes[r.dir].Table()[r.bucket])
    ensures var dn' := LessParent(v.nodes[r.dir], r.bucket, r.pos, r.id);
      BucketOk(c, Removed(c, v, r), r.dir, r.bucket, dn'.buckets[r.bucket], dn'.Table()[r.bucket])
  {
    hide FileNames.Hash, Without, Distinct, Removed;
    var v', bk := Removed(c, v, r), v.nodes[r.dir].buckets[r.bucket];
    var bk' := Without(bk, r.id);
    WithoutAt(bk, r.pos);
    WithoutElems(bk, r.id);
    forall i | 0 <= i < |bk'| ensures InChain(c, v', r.dir, r.bucket, bk', i) {
      hide BucketOk, InChain, Removable;
      BypassAt(c, v, r, i);
    }
  }

  lemma BypassAt(c: Config, v: Vol, r: Removal, i: nat)
    requires c.Valid() && Removable(c, v, r) && i < |v.nodes[r.dir].buckets[r.bucket]| - 1
    requires BucketOk(c, v, r.dir, r.bucket, v.nodes[r.dir].buckets[r.bucket], v.nodes[r.dir].Table()[r.bucket])
    ensures var bk' := Without(v.nodes[r.dir].buckets[r.bucket], r.id);
      i < |bk'| && InChain(c, Removed(c, v, r), r.dir, r.bucket, bk', i)
  {
    hide FileNames.Hash, Without, Distinct, Removed, InChain;
    var bk := v.nodes[r.dir].buckets[r.bucket];
    WithoutAt(bk, r.pos);
    var j := if i < r.pos then i else i + 1;
    OtherPlace(bk, j, r.pos);
    assert InChain(c, v, r.dir, r.bucket, bk, j);
    BypassLink(c, v, r, j);
    hide BucketOk;
    MovedInChain(c, v, r, bk, j, Without(bk, r.id), i);
  }

  lemma MovedInChain(c: Config, v: Vol, r: Removal, bk: seq<nat>, j: nat, bk': seq<nat>, i: nat)
    requires c.Valid() && Removable(c, v, r) && j < |bk| && i < |bk'| && bk'[i] == bk[j] && bk[j] != r.id
    requires InChain(c, v, r.dir, r.bucket, bk, j)
    requires bk[j] in Removed(c, v, r).nodes && Removed(c, v, r).nodes[bk[j]].Link() == FileLayout.At(bk', i + 1)
    ensures InChain(c, Removed(c, v, r), r.dir, r.bucket, bk', i)
  {
    hide FileNames.Hash, Removed, FileLayout.At;
    RemovedNodes(c, v, r);
    hide Removable;
  }

  lemma OtherPlace(s: seq<nat>, i: nat, j: nat)
    requires Distinct(s) && i < |s| && j < |s| && i != j
    ensures s[i] != s[j]
  {
  }

  /** The predecessor now links to the successor; every other link is as before. */
  lemma BypassLink(c: Config, v: Vol, r: Removal, j: nat)
    requires c.Valid() && Removable(c, v, r)
    requires j < |v.nodes[r.dir].buckets[r.bucket]| && j != r.pos
    requires BucketOk(c, v, r.dir, r.bucket, v.nodes[r.dir].buckets[r.bucket], v.nodes[r.dir].Table()[r.bucket])
    ensures var bk := v.nodes[r.dir].buckets[r.bucket];
      && bk[j] in Removed(c, v, r).nodes
      && Removed(c, v, r).nodes[bk[j]].Link() == FileLayout.At(bk, if j == r.pos - 1 then j + 2 else j + 1)
  {
    hide FileNames.Hash, Removed, FileLayout.At;
    RemovedNodes(c, v, r);
    var bk := v.nodes[r.dir].buckets[r.bucket];
    assert InChain(c, v, r.dir, r.bucket, bk, j);
    assert bk[j] != bk[r.pos];
    if j == r.pos - 1 {
      PrevLink(c, v, r);
    }
  }

  lemma PrevLink(c: Config, v: Vol, r: Removal)
    requires c.Valid() && Removable(c, v, r) && r.pos > 0
    ensures var bk, nodes := v.nodes[r.dir].buckets[r.bucket], Removed(c, v, r).nodes;
      bk[r.pos - 1] in nodes && nodes[bk[r.pos - 1]].Link() == FileLayout.At(bk, r.pos + 1)
  {
    hide FileNames.Hash, FileLayout.At;
  }
}
