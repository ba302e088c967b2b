/** Looking names up: why the hash bucket, the list of entries and the map of paths agree. */
module VolumeLookup {
  import opened Bytes
  import FileNames
  import opened VolumeState
  import VolumeSteps

  ghost predicate IsDirNode(v: Vol, x: Index, d: nat) {
    d in v.nodes && v.nodes[d].DirNode? && d in x.path
  }

  /** `e` is a node whose folded name is `u`. */
  ghost predicate Named(c: Config, v: Vol, e: nat, u: seq<byte>) {
    e in v.nodes && FileNames.Upper(v.nodes[e].Name(), c.intl) == u
  }

  lemma DirFacts(c: Config, v: Vol, x: Index, d: nat)
    requires c.Valid() && Inv(c, v, x) && IsDirNode(v, x, d)
    ensures VolumeSteps.IsDir(c, v.nodes[d]) && x.path[d] in x.fs && DirOk(c, v, x, d) && Indexed(v, x, d)
  {
    hide Inv, Hangs, BucketOk, Owns, Mirrored;
    VolumeSteps.LiveNode(c, v, x, d);
  }

  /** Whoever hangs under a directory is found at its path plus the folded name. */
  lemma ChildPath(c: Config, v: Vol, x: Index, d: nat, e: nat)
    requires c.Valid() && Inv(c, v, x) && e in v.nodes && e != c.root && v.nodes[e].up == Some(d)
    ensures d in x.path && e in x.path && IsParent(c, v, d, e)
    ensures x.path[e] == x.path[d] + [FileNames.Upper(v.nodes[e].Name(), c.intl)]
    ensures x.path[e] in x.ids && x.ids[x.path[e]] == e
  {
    hide Inv, DirOk, FileOk, Owns, Mirrored, IsParent, FileNames.Upper;
    VolumeSteps.LiveNode(c, v, x, e);
  }

  /** Soundness of the linear scan. */
  lemma EntryIsChild(c: Config, v: Vol, x: Index, d: nat, e: nat)
    requires c.Valid() && Inv(c, v, x) && IsDirNode(v, x, d) && e in v.nodes[d].entries
    ensures e in v.nodes && e != c.root && v.nodes[e].up == Some(d)
    ensures var p := x.path[d] + [FileNames.Upper(v.nodes[e].Name(), c.intl)];
      e in x.path && x.path[e] == p && p in x.ids && x.ids[p] == e
  {
    hide Inv, BucketOk, Indexed, FileNames.Upper;
    DirFacts(c, v, x, d);
    assert IsChild(v, d, e);
    ChildPath(c, v, x, d, e);
  }

  /** Soundness of the bucket scan. */
  lemma BucketIsChild(c: Config, v: Vol, x: Index, d: nat, h: nat, i: nat)
    requires c.Valid() && Inv(c, v, x) && IsDirNode(v, x, d)
    requires h < |v.nodes[d].buckets| && i < |v.nodes[d].buckets[h]|
    ensures var e := v.nodes[d].buckets[h][i];
      && e in v.nodes && e in v.nodes[d].entries
      && var p := x.path[d] + [FileNames.Upper(v.nodes[e].Name(), c.intl)]; p in x.ids && x.ids[p] == e
  {
    hide Inv, FileNames.Hash, FileNames.Upper, Indexed;
    DirFacts(c, v, x, d);
    var bk := v.nodes[d].buckets[h];
    assert BucketOk(c, v, d, h, bk, v.nodes[d].Table()[h]);
    assert InChain(c, v, d, h, bk, i);
    ChildPath(c, v, x, d, bk[i]);
  }

  /** Completeness of both: a path one below the directory is an entry, in the bucket of any name that
      folds to it. */
  lemma ChildIsEntry(c: Config, v: Vol, x: Index, d: nat, name: seq<byte>)
    requires c.Valid() && Inv(c, v, x) && IsDirNode(v, x, d)
    requires x.path[d] + [FileNames.Upper(name, c.intl)] in x.ids
    ensures var e := x.ids[x.path[d] + [FileNames.Upper(name, c.intl)]];
      && Named(c, v, e, FileNames.Upper(name, c.intl)) && v.nodes[e].up == Some(d) && e in v.nodes[d].entries
      && |v.nodes[d].buckets| == c.HashSize() && e in v.nodes[d].buckets[FileNames.Hash(name, c.intl, c.HashSize())]
  {
    hide Inv, DirOk, FileOk, Owns, Mirrored, FileNames.Hash, FileNames.Upper;
    var p := x.path[d] + [FileNames.Upper(name, c.intl)];
    var e := x.ids[p];
    IdIsNode(c, v, x, p);
    VolumeSteps.LiveNode(c, v, x, e);
    VolumeSteps.LiveNode(c, v, x, d);
    assert e != c.root;
    var u := v.nodes[e].up.value;
    ChildPath(c, v, x, u, e);
    VolumeSteps.LiveNode(c, v, x, u);
    assert x.path[u] == p[..|p| - 1] == x.path[d];
    assert FileNames.Upper(v.nodes[e].Name(), c.intl) == p[|p| - 1] == FileNames.Upper(name, c.intl);
    FileNames.SameNameSameHash(v.nodes[e].Name(), name, c.intl, c.HashSize());
  }

  lemma IdIsNode(c: Config, v: Vol, x: Index, p: Path)
    requires c.Valid() && Inv(c, v, x) && p in x.ids
    ensures x.ids[p] in v.nodes && x.ids[p] in x.path && x.path[x.ids[p]] == p && p in x.fs
    ensures x.fs[p] == Folder <==> v.nodes[x.ids[p]].DirNode?
  {
    hide OwnerOk, FreeOk, Balanced, Hangs, Mirrored, Owns, BucketOk, HoldsFile;
    assert Live(c, v, x, x.ids[p]);
  }

  /** No directory holds two names equal after folding. */
  lemma UniqueNames(c: Config, v: Vol, x: Index, d: nat, a: nat, b: nat)
    requires c.Valid() && Inv(c, v, x) && IsDirNode(v, x, d)
    requires a in v.nodes[d].entries && b in v.nodes[d].entries
    requires a in v.nodes && b in v.nodes
    requires FileNames.Upper(v.nodes[a].Name(), c.intl) == FileNames.Upper(v.nodes[b].Name(), c.intl)
    ensures a == b
  {
    hide *;
    EntryIsChild(c, v, x, d, a);
    EntryIsChild(c, v, x, d, b);
  }

  /** Everything above an entry is a directory. */
  lemma {:induction false} PrefixFolder(c: Config, v: Vol, x: Index, p: Path, k: nat)
    requires c.Valid() && Inv(c, v, x) && p in x.ids && k < |p|
    ensures p[..k] in x.ids && p[..k] in x.fs && x.fs[p[..k]] == Folder
    decreases |p|
  {
    hide Inv, DirOk, FileOk, Owns, Mirrored, FileNames.Hash, FileNames.Upper;
    var e := x.ids[p];
    IdIsNode(c, v, x, p);
    VolumeSteps.LiveNode(c, v, x, e);
    assert e != c.root;
    var u := v.nodes[e].up.value;
    ChildPath(c, v, x, u, e);
    VolumeSteps.LiveNode(c, v, x, u);
    var q := p[..|p| - 1];
    assert x.path[u] == q;
    IdIsNode(c, v, x, q);
    if k < |q| {
      PrefixFolder(c, v, x, q, k);
      assert q[..k] == p[..k];
    } else {
      assert p[..k] == q;
    }
  }

  lemma RootPath(c: Config, v: Vol, x: Index)
    requires c.Valid() && Inv(c, v, x)
    ensures [] in x.ids && x.ids[[]] == c.root && c.root in v.nodes && v.nodes[c.root].DirNode?
    ensures c.root in x.path && x.path[c.root] == [] && [] in x.fs && x.fs[[]] == Folder
    ensures v.nodes[c.root].block.Root?
  {
    hide Inv, DirOk, FileOk, Owns, Mirrored;
    VolumeSteps.RootLive(c, v, x);
    VolumeSteps.LiveNode(c, v, x, c.root);
    IdIsNode(c, v, x, []);
  }

  /** Whatever lies below a directory lies at or below one of its entries. */
  lemma EntryAbove(c: Config, v: Vol, x: Index, d: nat, q: Path)
    requires c.Valid() && Inv(c, v, x) && d in v.nodes && d in x.path && q in x.ids
    requires x.path[d] <= q && x.path[d] != q
    ensures v.nodes[d].DirNode?
    ensures var p := q[..|x.path[d]| + 1]; p in x.ids && x.ids[p] in v.nodes[d].entries
  {
    hide Inv, DirOk, FileOk, Owns, Mirrored, FileNames.Hash, FileNames.Upper;
    var p := q[..|x.path[d]| + 1];
    if |p| < |q| { PrefixFolder(c, v, x, q, |p|); IdIsFs(c, v, x, p); } else { assert p == q; }
    var e := x.ids[p];
    IdIsNode(c, v, x, p);
    VolumeSteps.LiveNode(c, v, x, e);
    VolumeSteps.LiveNode(c, v, x, d);
    assert e != c.root;
    var u := v.nodes[e].up.value;
    ChildPath(c, v, x, u, e);
    VolumeSteps.LiveNode(c, v, x, u);
    assert x.path[u] == p[..|p| - 1] == x.path[d];
  }

  lemma IdIsFs(c: Config, v: Vol, x: Index, p: Path)
    requires c.Valid() && Inv(c, v, x)
    ensures p in x.fs <==> p in x.ids
  {
    hide AllLive, OwnerOk, FreeOk, Balanced;
  }
}
