/** Mounting: `ADFSDir.read` and `_read_add_node` rebuild the node objects from the device alone. */
module VolumeLoad {
  import opened Bytes
  import Seqs
  import Device
  import FileNames
  import FileLayout
  import BitmapStore
  import opened VolumeState
  import VolumeSteps
  import VolumeLookup
  import VolumeFacts

  // ----- the work list of a directory scan -----

  /** An item of the growing list `blocks`: a block to read and the bucket it belongs to. */
  datatype Work = Work(blk: nat, idx: nat)

  /** The item is the next unread entry of its bucket. */
  ghost predicate Due(buckets: seq<seq<nat>>, found: seq<seq<nat>>, w: Work)
    requires |found| == |buckets|
  {
    w.idx < |buckets| && |found[w.idx]| < |buckets[w.idx]| && w.blk == buckets[w.idx][|found[w.idx]|]
  }

  ghost predicate Queued(work: seq<Work>, k: nat, h: nat) {
    exists i :: k <= i < |work| && work[i].idx == h
  }

  /** Every bucket is read up to some point, and the list holds exactly one item, the next entry, for
      every bucket that is not complete. */
  ghost predicate ScanOk(buckets: seq<seq<nat>>, found: seq<seq<nat>>, work: seq<Work>, k: nat) {
    && |found| == |buckets| && k <= |work|
    && (forall h :: 0 <= h < |buckets| ==> found[h] <= buckets[h])
    && (forall i :: k <= i < |work| ==> Due(buckets, found, work[i]))
    && (forall i, j :: k <= i < j < |work| ==> work[i].idx != work[j].idx)
    && (forall h :: 0 <= h < |buckets| && |found[h]| < |buckets[h]| ==> Queued(work, k, h))
  }

  /** The list at the start: the first entries of the buckets below `n`. */
  ghost predicate StartOk(buckets: seq<seq<nat>>, work: seq<Work>, n: nat) {
    && n <= |buckets|
    && (forall i :: 0 <= i < |work| ==>
      work[i].idx < n && buckets[work[i].idx] != [] && work[i].blk == buckets[work[i].idx][0])
    && (forall i, j :: 0 <= i < j < |work| ==> work[i].idx != work[j].idx)
    && (forall h :: 0 <= h < n && buckets[h] != [] ==> Queued(work, 0, h))
  }

  lemma QueuedStill(work: seq<Work>, work': seq<Work>, h: nat)
    requires Queued(work, 0, h) && work <= work'
    ensures Queued(work', 0, h)
  {
    var i :| 0 <= i < |work| && work[i].idx == h;
    assert work'[i].idx == h;
  }

  lemma QueuedLast(work: seq<Work>)
    requires work != []
    ensures Queued(work, 0, work[|work| - 1].idx)
  {
  }

  lemma FirstEntry(bucket: seq<nat>, first: nat)
    requires first == FileLayout.At(bucket, 0) && Seqs.NoZero(bucket)
    ensures first == 0 <==> bucket == []
    ensures bucket != [] ==> first == bucket[0]
  {
  }

  lemma StartNext(buckets: seq<seq<nat>>, work: seq<Work>, n: nat, first: nat)
    requires n < |buckets| && StartOk(buckets, work, n) && first == FileLayout.At(buckets[n], 0)
    requires Seqs.NoZero(buckets[n])
    ensures StartOk(buckets, if first != 0 then work + [Work(first, n)] else work, n + 1)
  {
    hide Queued, FileLayout.At, Seqs.NoZero;
    FirstEntry(buckets[n], first);
    if first != 0 {
      var work' := work + [Work(first, n)];
      forall h | 0 <= h < n + 1 && buckets[h] != [] ensures Queued(work', 0, h) {
        if h < n { QueuedStill(work, work', h); } else { QueuedLast(work'); }
      }
      forall i | 0 <= i < |work'| ensures work'[i].idx < n + 1 && (i < |work| ==> work'[i] == work[i]) { }
    }
  }

  lemma StartScan(buckets: seq<seq<nat>>, work: seq<Work>)
    requires StartOk(buckets, work, |buckets|)
    ensures ScanOk(buckets, VolumeFacts.NoBuckets(|buckets|), work, 0)
  {
  }

  /** Reading one item and following its chain link keeps the scan on track. */
  lemma ScanStep(buckets: seq<seq<nat>>, found: seq<seq<nat>>, work: seq<Work>, k: nat, next: nat)
    requires ScanOk(buckets, found, work, k) && k < |work|
    requires next == FileLayout.At(buckets[work[k].idx], |found[work[k].idx]| + 1) && Seqs.NoZero(buckets[work[k].idx])
    ensures var w := work[k];
      var work' := if next != 0 then work + [Work(next, w.idx)] else work;
      ScanOk(buckets, found[w.idx := found[w.idx] + [w.blk]], work', k + 1)
  {
    var w := work[k];
    assert Due(buckets, found, w);
    var found' := found[w.idx := found[w.idx] + [w.blk]];
    var work' := if next != 0 then work + [Work(next, w.idx)] else work;
    forall i | k + 1 <= i < |work'| ensures Due(buckets, found', work'[i]) {
      if i < |work| { assert Due(buckets, found, work[i]); }
    }
    forall h | 0 <= h < |buckets| && |found'[h]| < |buckets[h]| ensures Queued(work', k + 1, h) {
      if h == w.idx {
        assert work'[|work|].idx == h;
      } else {
        var i :| k <= i < |work| && work[i].idx == h;
        assert work'[i].idx == h && i != k;
      }
    }
  }

  /** With an empty list every bucket is complete. */
  lemma ScanDone(buckets: seq<seq<nat>>, found: seq<seq<nat>>, work: seq<Work>)
    requires ScanOk(buckets, found, work, |work|)
    ensures found == buckets
  {
    forall h | 0 <= h < |buckets| ensures found[h] == buckets[h] {
      assert !Queued(work, |work|, h);
    }
  }

  // ----- the entries read so far -----

  ghost predicate InFound(found: seq<seq<nat>>, e: nat) {
    exists h :: 0 <= h < |found| && e in found[h]
  }

  /** `entries` lists what is in the buckets, once. */
  ghost predicate EntriesOk(found: seq<seq<nat>>, entries: seq<nat>) {
    Seqs.Distinct(entries) && forall e :: e in entries <==> InFound(found, e)
  }

  /** No entry is in a bucket twice or in two buckets. */
  ghost predicate BucketsApart(buckets: seq<seq<nat>>) {
    forall h, h', i, i' ::
      (0 <= h < |buckets| && 0 <= h' < |buckets| && 0 <= i < |buckets[h]| && 0 <= i' < |buckets[h']|
       && buckets[h][i] == buckets[h'][i']) ==> h == h' && i == i'
  }

  lemma NotYetFound(buckets: seq<seq<nat>>, found: seq<seq<nat>>, w: Work)
    requires |found| == |buckets| && (forall h :: 0 <= h < |buckets| ==> found[h] <= buckets[h])
    requires BucketsApart(buckets) && Due(buckets, found, w)
    ensures !InFound(found, w.blk)
  {
    forall h | 0 <= h < |found| ensures w.blk !in found[h] {
      forall i | 0 <= i < |found[h]| ensures found[h][i] != w.blk {
        assert found[h][i] == buckets[h][i];
      }
    }
  }

  lemma EntriesStep(buckets: seq<seq<nat>>, found: seq<seq<nat>>, entries: seq<nat>, w: Work)
    requires |found| == |buckets| && (forall h :: 0 <= h < |buckets| ==> found[h] <= buckets[h])
    requires BucketsApart(buckets) && EntriesOk(found, entries) && Due(buckets, found, w)
    ensures w.blk !in entries
    ensures EntriesOk(found[w.idx := found[w.idx] + [w.blk]], entries + [w.blk])
  {
    NotYetFound(buckets, found, w);
    var found' := found[w.idx := found[w.idx] + [w.blk]];
    forall e | e in entries + [w.blk] ensures InFound(found', e) {
      if e == w.blk {
        assert e in found'[w.idx];
      } else {
        var h :| 0 <= h < |found| && e in found[h];
        assert e in found'[h];
      }
    }
    forall e | InFound(found', e) ensures e in entries + [w.blk] {
      var h :| 0 <= h < |found'| && e in found'[h];
      if e != w.blk { assert e in found[h]; }
    }
  }

  // ----- reloaded nodes -----

  /** The same node, read afresh: entries may come in another order, nothing is cached. */
  ghost predicate Reloaded(n: Node, m: Node) {
    && m.block == n.block && m.up == n.up
    && (if n.DirNode? then m.DirNode? && m.buckets == n.buckets && SameEntries(n, m)
        else m.FileNode? && m.ext == n.ext && m.dat == n.dat && m.cache == None)
  }

  ghost predicate SameEntries(n: Node, m: Node)
    requires n.DirNode? && m.DirNode?
  {
    Seqs.Distinct(m.entries) && forall e :: e in m.entries <==> e in n.entries
  }

  ghost predicate Loaded(v: Vol, nodes: map<nat, Node>) {
    forall id :: id in nodes ==> id in v.nodes && Reloaded(v.nodes[id], nodes[id])
  }

  /** Everything below `p` is in the table. */
  ghost predicate Covers(v: Vol, x: Index, p: Path, nodes: map<nat, Node>) {
    forall id :: id in v.nodes && id in x.path && p <= x.path[id] && p != x.path[id] ==> id in nodes
  }

  /** A complete reload stands for the same volume. */
  lemma ReloadInv(c: Config, v: Vol, x: Index, nodes: map<nat, Node>)
    requires c.Valid() && Inv(c, v, x) && Loaded(v, nodes) && nodes.Keys == v.nodes.Keys
    ensures Inv(c, Vol(v.disk, nodes, v.free), x)
  {
    hide Live, OwnerOk, FreeOk, IdsOk, TotalCost, Reloaded;
    var v' := Vol(v.disk, nodes, v.free);
    forall id | id in v'.nodes ensures Live(c, v', x, id) {
      ReloadLive(c, v, x, nodes, id);
    }
    ReloadRest(c, v, x, nodes);
  }

  lemma ReloadRest(c: Config, v: Vol, x: Index, nodes: map<nat, Node>)
    requires nodes.Keys == v.nodes.Keys && OwnerOk(c, v, x) && FreeOk(c, v, x) && IdsOk(v, x)
    ensures var v' := Vol(v.disk, nodes, v.free);
      OwnerOk(c, v', x) && FreeOk(c, v', x) && IdsOk(v', x)
  {
    VolumeSteps.SameOwners(c, v, x, Vol(v.disk, nodes, v.free));
  }

  lemma ReloadLive(c: Config, v: Vol, x: Index, nodes: map<nat, Node>, id: nat)
    requires c.Valid() && Inv(c, v, x) && Loaded(v, nodes) && nodes.Keys == v.nodes.Keys && id in v.nodes
    ensures Live(c, Vol(v.disk, nodes, v.free), x, id)
  {
    hide Inv, FileNames.Hash, FileNames.Upper, BucketOk, Seqs.Distinct;
    var v' := Vol(v.disk, nodes, v.free);
    VolumeSteps.LiveNode(c, v, x, id);
    var n, m := v.nodes[id], nodes[id];
    assert Reloaded(n, m) && m.Own(id) == n.Own(id);
    forall e | IsChild(v, id, e) ensures e in v'.nodes && SameChild(v.nodes[e], v'.nodes[e]) {
      assert Reloaded(v.nodes[e], nodes[e]);
    }
    if n.DirNode? {
      forall h | 0 <= h < |n.buckets| ensures BucketOk(c, v', id, h, n.buckets[h], n.Table()[h]) {
        BucketFrame(c, v, v', id, h, n.buckets[h], n.Table()[h]);
      }
      forall e | e in m.entries ensures e != c.root && IsChild(v', id, e) {
        assert IsChild(v, id, e);
      }
    }
    if id != c.root {
      assert Reloaded(v.nodes[n.up.value], nodes[n.up.value]);
    }
  }

  // ----- reading a directory -----

  lemma ScanFacts(c: Config, v: Vol, x: Index, d: nat)
    requires c.Valid() && Inv(c, v, x) && VolumeLookup.IsDirNode(v, x, d)
    ensures VolumeSteps.IsDir(c, v.nodes[d]) && BucketsApart(v.nodes[d].buckets)
    ensures forall h :: 0 <= h < c.HashSize() ==> v.nodes[d].Table()[h] == FileLayout.At(v.nodes[d].buckets[h], 0)
    ensures forall h :: 0 <= h < c.HashSize() ==> Seqs.NoZero(v.nodes[d].buckets[h])
  {
    hide Inv, FileNames.Hash, Live, FileNames.Upper;
    VolumeLookup.DirFacts(c, v, x, d);
    var n := v.nodes[d];
    assert forall h :: 0 <= h < |n.buckets| ==> BucketOk(c, v, d, h, n.buckets[h], n.Table()[h]);
    forall h, i | 0 <= h < |n.buckets| && 0 <= i < |n.buckets[h]| ensures n.buckets[h][i] != 0 {
      assert InChain(c, v, d, h, n.buckets[h], i);
      NodeNotZero(c, v, x, n.buckets[h][i]);
    }
    forall h, h', i, i' |
      0 <= h < |n.buckets| && 0 <= h' < |n.buckets| && 0 <= i < |n.buckets[h]| && 0 <= i' < |n.buckets[h']|
      && n.buckets[h][i] == n.buckets[h'][i']
      ensures h == h' && i == i'
    {
      assert InChain(c, v, d, h, n.buckets[h], i) && InChain(c, v, d, h', n.buckets[h'], i');
    }
  }

  lemma NodeNotZero(c: Config, v: Vol, x: Index, id: nat)
    requires c.Valid() && Inv(c, v, x) && id in v.nodes
    ensures id != 0
  {
    hide Inv, Mirrored, Indexed;
    VolumeSteps.HeaderOwned(c, v, x, id);
    VolumeSteps.OwnerOf(c, v, x, id, id);
  }

  /** A bucket entry on the device: its block, its place, and the link to the next entry. */
  lemma EntryOnDisk(c: Config, v: Vol, x: Index, d: nat, h: nat, i: nat)
    requires c.Valid() && Inv(c, v, x) && VolumeLookup.IsDirNode(v, x, d)
    requires h < |v.nodes[d].buckets| && i < |v.nodes[d].buckets[h]|
    ensures var e := v.nodes[d].buckets[h][i];
      && e in v.nodes && e in v.nodes[d].entries && e in v.disk && v.disk[e] == v.nodes[e].block
      && v.nodes[e].up == Some(d) && e in x.path && |x.path[e]| == |x.path[d]| + 1 && x.path[e] in x.ids
      && v.nodes[e].Link() == FileLayout.At(v.nodes[d].buckets[h], i + 1)
      && (v.nodes[e].DirNode? <==> v.nodes[e].block.UserDir?)
      && (v.nodes[e].FileNode? <==> v.nodes[e].block.FileHeader?)
  {
    hide Inv, FileNames.Hash, FileNames.Upper, Live, Indexed;
    VolumeLookup.DirFacts(c, v, x, d);
    var n := v.nodes[d];
    assert BucketOk(c, v, d, h, n.buckets[h], n.Table()[h]);
    assert InChain(c, v, d, h, n.buckets[h], i);
    var e := n.buckets[h][i];
    VolumeLookup.BucketIsChild(c, v, x, d, h, i);
    VolumeLookup.ChildPath(c, v, x, d, e);
    VolumeSteps.HeaderOwned(c, v, x, e);
    EntryKind(c, v, x, e);
  }

  lemma EntryKind(c: Config, v: Vol, x: Index, e: nat)
    requires c.Valid() && Inv(c, v, x) && e in v.nodes && e != c.root
    ensures v.nodes[e].DirNode? <==> v.nodes[e].block.UserDir?
    ensures v.nodes[e].FileNode? <==> v.nodes[e].block.FileHeader?
  {
    hide Inv, IsParent, BucketOk, FileLayout.BodyOnDisk, Owns;
    VolumeSteps.LiveNode(c, v, x, e);
  }

  /** Opening a file finds the blocks the node had. */
  lemma FileOpens(c: Config, v: Vol, x: Index, e: nat)
    requires c.Valid() && Inv(c, v, x) && e in v.nodes && v.nodes[e].FileNode?
    ensures var n := v.nodes[e];
      && n.block.FileHeader? && e in v.disk && v.disk[e] == n.block
        && FileLayout.ExtChain(v.disk, n.block.extension, n.ext)
      && FileLayout.Opened(c.g, c.ffs, v.disk, e, n.block, n.ext) == FileLayout.Ok((n.ext, n.dat))
  {
    hide Inv, Hangs, Owns, FileLayout.BodyOnDisk, FileLayout.Opened, FileLayout.ExtChain;
    VolumeSteps.LiveNode(c, v, x, e);
    var n := v.nodes[e];
    FileLayout.OpenedIsCreated(c.g, c.ffs, v.disk, e, n.block, n.ext, n.dat, x.fs[x.path[e]].data);
  }

  /** `_read_add_node`: a file opens its blocks, a directory is read in turn. */
  method ReadAddNode(dev: Device.BlockDevice, ffs: bool, d: nat, h: nat, i: nat, e: nat, nodes0: map<nat, Node>,
                     ghost c: Config, ghost v: Vol, ghost x: Index, ghost depth: nat)
    returns (hashChain: nat, nodes: map<nat, Node>)
    requires c.Valid() && Inv(c, v, x) && dev.g == c.g && ffs == c.ffs && dev.blks == v.disk
    requires VolumeLookup.IsDirNode(v, x, d) && h < |v.nodes[d].buckets| && i < |v.nodes[d].buckets[h]|
    requires e == v.nodes[d].buckets[h][i] && Loaded(v, nodes0) && VolumeFacts.DepthBound(x, depth)
      && |x.path[d]| <= depth
    ensures hashChain == FileLayout.At(v.nodes[d].buckets[h], i + 1)
    ensures Loaded(v, nodes) && nodes0.Keys <= nodes.Keys && e in nodes && e in x.path && Covers(v, x, x.path[e], nodes)
    decreases depth - |x.path[d]|, 0
  {
    hide Inv, VolumeLookup.IsDirNode, Loaded, Covers, Reloaded, VolumeFacts.DepthBound, FileLayout.At;
    hide FileLayout.Opened, FileLayout.ExtChain;
    EntryOnDisk(c, v, x, d, h, i);
    VolumeFacts.WithinDepth(x, x.path[e], depth);
    var blk := dev.blks[e];
    if blk.UserDir? {
      ChildDir(v, x, e);
      var node;
      node, nodes := ReadDir(dev, ffs, e, Some(d), blk, blk.dirTable, nodes0, c, v, x, depth);
      LoadOne(v, x, nodes, e, node, x.path[e]);
      nodes := nodes[e := node];
      hashChain := blk.hashChain;
    } else {
      FileOpens(c, v, x, e);
      var r := FileLayout.OpenBlocks(dev, ffs, e, v.nodes[e].ext);
      var node := FileNode(blk, Some(d), r.value.0, r.value.1, None);
      LoadFile(v, nodes0, e, node);
      nodes := nodes0[e := node];
      FileCovers(c, v, x, e, nodes);
      hashChain := blk.hashChain;
    }
  }

  /** `read`: the scan over the list that grows while it runs ends, and finds the buckets as they were. */
  method ReadDir(dev: Device.BlockDevice, ffs: bool, d: nat, up: Option<nat>, block: Device.Block, table: seq<nat>,
          nodes0: map<nat, Node>,
                 ghost c: Config, ghost v: Vol, ghost x: Index, ghost depth: nat)
    returns (node: Node, nodes: map<nat, Node>)
    requires c.Valid() && Inv(c, v, x) && dev.g == c.g && ffs == c.ffs && dev.blks == v.disk
    requires VolumeLookup.IsDirNode(v, x, d) && v.nodes[d].block == block && v.nodes[d].up == up
      && table == v.nodes[d].Table()
    requires Loaded(v, nodes0) && VolumeFacts.DepthBound(x, depth) && |x.path[d]| <= depth
    ensures Reloaded(v.nodes[d], node)
    ensures Loaded(v, nodes) && nodes0.Keys <= nodes.Keys && Covers(v, x, x.path[d], nodes)
    decreases depth - |x.path[d]|, 1
  {
    hide Inv, Loaded, Covers, VolumeFacts.DepthBound, StartOk, ScanOk, EntriesOk, BucketsApart, Seqs.NoZero;
    hide FileLayout.At, Seqs.Distinct, Reloaded;
    ScanFacts(c, v, x, d);
    ghost var buckets, entries0 := v.nodes[d].buckets, v.nodes[d].entries;
    // create initial list with blk_num/hash_index for dir scan
    var size := dev.g.blockLongs - 56;
    var blocks: seq<Work> := [];
    StartEmpty(buckets);
    for i := 0 to size
      invariant StartOk(buckets, blocks, i)
    {
      StartNext(buckets, blocks, i, table[i]);
      if table[i] != 0 { blocks := blocks + [Work(table[i], i)]; }
    }
    StartScan(buckets, blocks);
    var entries: seq<nat>, found := [], VolumeFacts.NoBuckets(size);
    NoEntries(size);
    nodes := nodes0;
    var k := 0;
    while k < |blocks|
      invariant ScanOk(buckets, found, blocks, k) && EntriesOk(found, entries) && k <= |blocks|
      invariant Loaded(v, nodes) && nodes0.Keys <= nodes.Keys && EntriesCovered(v, x, entries, nodes)
      invariant Within(entries, entries0)
      decreases |Seqs.Elems(entries0) - Seqs.Elems(entries)|
    {
      var w := blocks[k];
      ScanItem(buckets, found, blocks, k);
      EntriesStep(buckets, found, entries, w);
      EntryOnDisk(c, v, x, d, w.idx, |found[w.idx]|);
      var hashChain, more := ReadAddNode(dev, ffs, d, w.idx, |found[w.idx]|, w.blk, nodes, c, v, x, depth);
      CoveredMore(v, x, entries, nodes, more, w.blk);
      ScanStep(buckets, found, blocks, k, hashChain);
      Progress(entries0, entries, w.blk);
      nodes := more;
      // store node in entries and in name_hash
      entries := entries + [w.blk];
      found := found[w.idx := found[w.idx] + [w.blk]];
      // follow hash chain
      if hashChain != 0 { blocks := blocks + [Work(hashChain, w.idx)]; }
      k := k + 1;
    }
    ScanDone(buckets, found, blocks);
    node := DirNode(block, up, entries, found);
    AllFound(c, v, x, d, node);
    AllCovered(c, v, x, d, entries, nodes);
  }

  // ----- steps of the scan -----

  ghost predicate Within(entries: seq<nat>, all: seq<nat>) {
    forall e :: e in entries ==> e in all
  }

  ghost predicate EntriesCovered(v: Vol, x: Index, entries: seq<nat>, nodes: map<nat, Node>) {
    forall e :: e in entries ==> e in nodes && e in x.path && Covers(v, x, x.path[e], nodes)
  }

  lemma StartEmpty(buckets: seq<seq<nat>>)
    ensures StartOk(buckets, [], 0)
  {
  }

  lemma NoEntries(n: nat)
    ensures EntriesOk(VolumeFacts.NoBuckets(n), [])
  {
  }

  lemma ScanItem(buckets: seq<seq<nat>>, found: seq<seq<nat>>, work: seq<Work>, k: nat)
    requires ScanOk(buckets, found, work, k) && k < |work|
    ensures |found| == |buckets| && (forall h :: 0 <= h < |buckets| ==> found[h] <= buckets[h])
    ensures Due(buckets, found, work[k])
  {
  }

  lemma ChildDir(v: Vol, x: Index, e: nat)
    requires e in v.nodes && e in x.path && v.nodes[e].DirNode?
    ensures VolumeLookup.IsDirNode(v, x, e)
  {
  }

  lemma LoadOne(v: Vol, x: Index, nodes: map<nat, Node>, e: nat, node: Node, p: Path)
    requires Loaded(v, nodes) && e in v.nodes && Reloaded(v.nodes[e], node) && Covers(v, x, p, nodes)
    ensures Loaded(v, nodes[e := node]) && Covers(v, x, p, nodes[e := node])
  {
  }

  lemma LoadFile(v: Vol, nodes: map<nat, Node>, e: nat, node: Node)
    requires Loaded(v, nodes) && e in v.nodes && v.nodes[e].FileNode?
    requires node == FileNode(v.nodes[e].block, v.nodes[e].up, v.nodes[e].ext, v.nodes[e].dat, None)
    ensures Loaded(v, nodes[e := node])
  {
  }

  /** Nothing lies below a file. */
  lemma FileCovers(c: Config, v: Vol, x: Index, e: nat, nodes: map<nat, Node>)
    requires c.Valid() && Inv(c, v, x) && e in v.nodes && e in x.path && v.nodes[e].FileNode?
    ensures Covers(v, x, x.path[e], nodes)
  {
    hide Inv;
    forall id | id in v.nodes && id in x.path ensures !(x.path[e] <= x.path[id] && x.path[e] != x.path[id]) {
      VolumeFacts.IdPath(c, v, x, id);
      if x.path[e] <= x.path[id] && x.path[e] != x.path[id] { VolumeLookup.EntryAbove(c, v, x, e, x.path[id]); }
    }
  }

  lemma CoveredMore(v: Vol, x: Index, entries: seq<nat>, nodes: map<nat, Node>, more: map<nat, Node>, e: nat)
    requires EntriesCovered(v, x, entries, nodes) && nodes.Keys <= more.Keys
    requires e in more && e in x.path && Covers(v, x, x.path[e], more)
    ensures EntriesCovered(v, x, entries + [e], more)
  {
  }

  lemma Progress(all: seq<nat>, entries: seq<nat>, e: nat)
    requires Within(entries, all) && e in all && e !in entries
    ensures Within(entries + [e], all)
    ensures |Seqs.Elems(all) - Seqs.Elems(entries + [e])| < |Seqs.Elems(all) - Seqs.Elems(entries)|
  {
    assert Seqs.Elems(all) - Seqs.Elems(entries + [e]) == Seqs.Elems(all) - Seqs.Elems(entries) - {e};
  }

  lemma AllFound(c: Config, v: Vol, x: Index, d: nat, node: Node)
    requires c.Valid() && Inv(c, v, x) && VolumeLookup.IsDirNode(v, x, d)
    requires node.DirNode? && node.block == v.nodes[d].block && node.up == v.nodes[d].up
    requires node.buckets == v.nodes[d].buckets && EntriesOk(node.buckets, node.entries)
    ensures Reloaded(v.nodes[d], node)
    ensures forall e :: e in v.nodes[d].entries ==> e in node.entries
  {
    hide Inv, FileNames.Hash, FileNames.Upper, BucketOk, Seqs.Distinct;
    VolumeLookup.DirFacts(c, v, x, d);
    var n := v.nodes[d];
    forall e | e in node.entries ensures e in n.entries {
      var h :| 0 <= h < |n.buckets| && e in n.buckets[h];
      var i :| 0 <= i < |n.buckets[h]| && n.buckets[h][i] == e;
      VolumeLookup.BucketIsChild(c, v, x, d, h, i);
    }
    forall e | e in n.entries ensures e in node.entries {
      VolumeLookup.EntryIsChild(c, v, x, d, e);
      VolumeLookup.ChildIsEntry(c, v, x, d, v.nodes[e].Name());
      assert InFound(node.buckets, e);
    }
  }

  lemma AllCovered(c: Config, v: Vol, x: Index, d: nat, entries: seq<nat>, nodes: map<nat, Node>)
    requires c.Valid() && Inv(c, v, x) && VolumeLookup.IsDirNode(v, x, d) && EntriesCovered(v, x, entries, nodes)
    requires forall e :: e in v.nodes[d].entries ==> e in entries
    ensures Covers(v, x, x.path[d], nodes)
  {
    hide Inv;
    forall id | id in v.nodes && id in x.path && x.path[d] <= x.path[id] && x.path[d] != x.path[id]
      ensures id in nodes
    {
      VolumeFacts.IdPath(c, v, x, id);
      VolumeLookup.EntryAbove(c, v, x, d, x.path[id]);
      var p := x.path[id][..|x.path[d]| + 1];
      VolumeLookup.IdIsNode(c, v, x, p);
      if p == x.path[id] {
        assert x.ids[p] == id;
      } else {
        assert p <= x.path[id];
      }
    }
  }

  // ----- the whole volume -----

  lemma NothingLoaded(v: Vol)
    ensures Loaded(v, map[])
  {
  }

  lemma AllLoaded(c: Config, v: Vol, x: Index, rootDir: Node, below: map<nat, Node>)
    requires c.Valid() && Inv(c, v, x) && c.root in v.nodes && c.root in x.path && x.path[c.root] == []
    requires Loaded(v, below) && Covers(v, x, [], below) && Reloaded(v.nodes[c.root], rootDir)
    ensures Loaded(v, below[c.root := rootDir]) && below[c.root := rootDir].Keys == v.nodes.Keys
  {
    hide Inv, Reloaded;
    forall id | id in v.nodes ensures id in below[c.root := rootDir] {
      VolumeFacts.IdPath(c, v, x, id);
      VolumeFacts.RootIff(c, v, x, id);
    }
  }

  /** What `close` stored passes every check of `ADFSBitmap.read`. */
  lemma StoredReads(g: Device.Geometry, disk: map<nat, Device.Block>, bms: seq<nat>, bytes: seq<byte>)
    requires g.Valid() && BitmapStore.AreBitmaps(disk, bms, |bms|) && BitmapStore.Collected(disk, bms, |bms|) == bytes
    requires |bytes| == Times(|bms|, BitmapStore.BlkBytes(g)) && |bms| == BitmapStore.NumBitmapBlks(g)
    ensures BitmapStore.ReadError(g, disk, bms) == None
  {
  }
}
