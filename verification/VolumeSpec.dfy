/** What a volume is for, without nodes, blocks or chains: a map from folded paths to entries, and
    the outcome of each operation of `ADFSVolume` as a function of that map alone. */
module VolumeSpec {
  import opened Bytes
  import Device
  import opened FileNames
  import opened VolumeState

  type Fs = map<Path, Entry>

  datatype FsError =
    | InvalidName | NameExists | NoFreeBlocks | InvalidParent | NotFound | DeleteNotAllowed
    | Crash      // a Python error that is no FSError

  datatype Reply = Done | Data(bytes: seq<byte>) | Fail(error: FsError)

  datatype Op =
    | MakeDir(path: seq<byte>)
    | WriteFile(data: seq<byte>, path: seq<byte>, suggest: Option<seq<byte>>)
    | ReadFile(path: seq<byte>)
    | Delete(path: seq<byte>, all: bool)

  /** What a path name leads to: nothing, an entry, or an error for an over-long component. */
  datatype Target = Bad | Nothing | Entry(path: Path)

  function KindOk(e: Entry, allowFile: bool, allowDir: bool): bool {
    if e.Folder? then allowDir else allowFile
  }

  /** `get_path_name`.  The root aliases win over everything and ignore the kind asked for. */
  function Resolve(fs: Fs, s: seq<byte>, intl: bool, allowFile: bool, allowDir: bool): Target {
    if !ValidPath(s) then Bad
    else if RootAlias(s) then Target.Entry([])
    else
      var p := Fold(Split(s), intl);
      if p in fs && KindOk(fs[p], allowFile, allowDir) then Target.Entry(p) else Nothing
  }

  /** `get_create_path_name`: the parent directory and the name to create. */
  function CreateTarget(fs: Fs, s: seq<byte>, suggest: Option<seq<byte>>, intl: bool): (Target, Option<seq<byte>>) {
    if !ValidPath(s) then (Bad, None)
    else if RootAlias(s) then (Target.Entry([]), suggest)
    else
      var asDir := Resolve(fs, s, intl, false, true);
      if asDir.Entry? then (asDir, suggest) else
        var (dir, base) := DirAndBase(s);
        (if dir.Some? then Resolve(fs, dir.value, intl, false, true) else Target.Entry([]),
         if base.Some? then base else suggest)
  }

  ghost function Room(c: Config, fs: Fs): int
    requires c.g.Valid()
  {
    c.capacity - TotalCost(c, fs)
  }

  function Child(dir: Path, name: seq<byte>, intl: bool): Path { dir + [Upper(name, intl)] }

  /** `_create_node`. */
  ghost function CreateIn(c: Config, fs: Fs, dir: Path, name: seq<byte>, e: Entry): (Reply, Fs)
    requires c.g.Valid()
  {
    var p := Child(dir, name, c.intl);
    if !ValidPath(name) then (Fail(InvalidName), fs)
    else if p in fs then (Fail(NameExists), fs)
    else if Room(c, fs) < Cost(c, e) then (Fail(NoFreeBlocks), fs)
    else (Done, fs[p := e])
  }

  ghost function MakeDirSpec(c: Config, fs: Fs, path: seq<byte>): (Reply, Fs)
    requires c.g.Valid()
  {
    var (dir, base) := DirAndBase(path);
    if !ValidPath(path) || base.None? then (Fail(InvalidName), fs) else
      var parent := if dir.Some? then Resolve(fs, dir.value, c.intl, false, true) else Target.Entry([]);
      if !parent.Entry? then (Fail(Crash), fs)  // building the error text fails
      else CreateIn(c, fs, parent.path, base.value, Folder)
  }

  ghost function WriteFileSpec(c: Config, fs: Fs, data: seq<byte>, path: seq<byte>,
          suggest: Option<seq<byte>>): (Reply, Fs)
    requires c.g.Valid()
  {
    var (parent, name) := CreateTarget(fs, path, suggest, c.intl);
    if parent.Bad? then (Fail(InvalidName), fs)
    else if parent.Nothing? then (Fail(InvalidParent), fs)
    else if name.None? then (Fail(InvalidName), fs)
    else CreateIn(c, fs, parent.path, name.value, Contents(data))
  }

  function ReadFileSpec(fs: Fs, path: seq<byte>, intl: bool): Reply {
    match Resolve(fs, path, intl, true, false)
    case Bad => Fail(InvalidName)
    case Nothing => Fail(NotFound)
    case Entry(p) => if p in fs && fs[p].Contents? then Data(fs[p].data) else Fail(Crash)
  }

  function Below(fs: Fs, p: Path): Fs { map q | q in fs && p <= q && p != q :: fs[q] }

  function WithoutBelow(fs: Fs, p: Path): Fs { map q | q in fs && !(p <= q && p != q) :: fs[q] }

  /** The map without a subtree. */
  function CutOff(fs: Fs, p: Path): Fs { WithoutBelow(fs, p) - {p} }

  /** `ADFSNode.delete`.  The root directory has no parent to delete it from. */
  function DeleteOutcome(fs: Fs, p: Path, all: bool): (Reply, Fs) {
    if p == [] then (Fail(Crash), if all then WithoutBelow(fs, []) else fs)
    else if !all && Below(fs, p) != map[] then (Fail(DeleteNotAllowed), fs)
    else (Done, CutOff(fs, p))
  }

  function DeleteSpec(fs: Fs, path: seq<byte>, all: bool, intl: bool): (Reply, Fs) {
    match Resolve(fs, path, intl, true, true)
    case Bad => (Fail(InvalidName), fs)
    case Nothing => (Fail(NotFound), fs)
    case Entry(p) => DeleteOutcome(fs, p, all)
  }

  ghost function Step(c: Config, fs: Fs, op: Op): (Reply, Fs)
    requires c.g.Valid()
  {
    match op
    case MakeDir(path) => MakeDirSpec(c, fs, path)
    case WriteFile(data, path, suggest) => WriteFileSpec(c, fs, data, path, suggest)
    case ReadFile(path) => (ReadFileSpec(fs, path, c.intl), fs)
    case Delete(path, all) => DeleteSpec(fs, path, all, c.intl)
  }

  /** A whole run: the replies in order and the map at the end. */
  ghost function Run(c: Config, fs: Fs, ops: seq<Op>, n: nat): (seq<Reply>, Fs)
    requires c.g.Valid() && n <= |ops|
  {
    if n == 0 then ([], fs) else
      var (replies, before) := Run(c, fs, ops, n - 1);
      var (reply, after) := Step(c, before, ops[n - 1]);
      (replies + [reply], after)
  }

  /** Reply `k` of a run is that of operation `k` on what the operations before it left behind. */
  lemma {:induction false} RunExact(c: Config, fs: Fs, ops: seq<Op>, n: nat, k: nat)
    requires c.g.Valid() && k < n <= |ops|
    ensures Run(c, fs, ops, 0).1 == fs && |Run(c, fs, ops, n).0| == n
    ensures var (reply, after) := Step(c, Run(c, fs, ops, k).1, ops[k]);
      Run(c, fs, ops, n).0[k] == reply && Run(c, fs, ops, k + 1).1 == after
  {
    hide Step;
    if k < n - 1 { RunExact(c, fs, ops, n - 1, k); }
    RepliesCount(c, fs, ops, n - 1);
  }

  lemma {:induction false} RepliesCount(c: Config, fs: Fs, ops: seq<Op>, n: nat)
    requires c.g.Valid() && n <= |ops|
    ensures |Run(c, fs, ops, n).0| == n && Run(c, fs, ops, 0).1 == fs
  {
    hide Step;
    if n > 0 { RepliesCount(c, fs, ops, n - 1); }
  }

  /** The operation by its kind; only the first two and the last can change the map. */
  lemma StepExact(c: Config, fs: Fs, data: seq<byte>, path: seq<byte>, suggest: Option<seq<byte>>, all: bool)
    requires c.g.Valid()
    ensures Step(c, fs, MakeDir(path)) == MakeDirSpec(c, fs, path)
    ensures Step(c, fs, WriteFile(data, path, suggest)) == WriteFileSpec(c, fs, data, path, suggest)
    ensures Step(c, fs, ReadFile(path)) == (ReadFileSpec(fs, path, c.intl), fs)
    ensures Step(c, fs, Delete(path, all)) == DeleteSpec(fs, path, all, c.intl)
  {
  }

  // ----- entries that do not survive their blocks -----

  predicate SizeFits(e: Entry) { e.Contents? ==> |e.data| < 0x1_0000_0000 }

  /** The header block keeps the entry as it is. */
  predicate EntryFits(name: seq<byte>, meta: Device.Meta, e: Entry) {
    |name| <= Device.NAME_FIELD && |meta.comment| <= Device.COMMENT_FIELD && SizeFits(e)
  }

  /** The header block can be written at all. */
  predicate EntryWrites(name: seq<byte>, meta: Device.Meta, e: Entry) {
    |name| < 256 && |meta.comment| < 256 && SizeFits(e)
  }

  /** Arguments that never break a volume. */
  predicate OpFits(op: Op) {
    op.WriteFile? ==> |op.data| < 0x1_0000_0000 && (op.suggest.Some? ==> |op.suggest.value| <= Device.NAME_FIELD)
  }

  /** The operation passes every check and takes its blocks, but what it then writes does not fit: the header
      block raises, with the blocks taken, or it keeps only part of the name. */
  ghost predicate Breaks(c: Config, fs: Fs, op: Op)
    requires c.g.Valid()
  {
    && op.WriteFile? && WriteFileSpec(c, fs, op.data, op.path, op.suggest).0 == Done
    && var name := CreateTarget(fs, op.path, op.suggest, c.intl).1.UnwrapOr([]);
    |op.data| >= 0x1_0000_0000 || |name| > Device.NAME_FIELD
  }

  /** No operation of the first `n` breaks the volume. */
  ghost predicate RunHolds(c: Config, fs: Fs, ops: seq<Op>, n: nat)
    requires c.g.Valid() && n <= |ops|
  {
    n > 0 ==> RunHolds(c, fs, ops, n - 1) && !Breaks(c, Run(c, fs, ops, n - 1).1, ops[n - 1])
  }

  lemma {:induction false} BrokenRun(c: Config, fs: Fs, ops: seq<Op>, i: nat, n: nat)
    requires c.g.Valid() && i < n <= |ops| && Breaks(c, Run(c, fs, ops, i).1, ops[i])
    ensures !RunHolds(c, fs, ops, n)
  {
    hide Breaks, Run;
    if i < n - 1 { BrokenRun(c, fs, ops, i, n - 1); }
  }

  /** A run whose operations all have fitting arguments never breaks the volume. */
  lemma {:induction false} FitNeverBreaks(c: Config, fs: Fs, ops: seq<Op>, n: nat)
    requires c.g.Valid() && n <= |ops| && forall i :: 0 <= i < n ==> OpFits(ops[i])
    ensures RunHolds(c, fs, ops, n)
  {
    hide Breaks, Run, OpFits;
    if n > 0 {
      FitNeverBreaks(c, fs, ops, n - 1);
      var before := Run(c, fs, ops, n - 1).1;
      if Breaks(c, before, ops[n - 1]) { BreaksOnlyBy(c, before, ops[n - 1]); }
    }
  }

  /** A valid path has a short base name. */
  lemma BaseShort(s: seq<byte>)
    requires ValidPath(s)
    ensures var (_, base) := DirAndBase(s); base.Some? ==> |base.value| <= Device.NAME_FIELD
  {
    hide Split, LastSlash;
    DirAndBaseOfPath(s);
    var (dir, base) := DirAndBase(s);
    if base.Some? && dir.Some? { assert Split(s)[|Split(dir.value)|] == base.value; }
    if base.Some? && dir.None? { assert Split(s)[0] == base.value; }
  }

  /** Only the data and the suggested name can break a volume. */
  lemma BreaksOnlyBy(c: Config, fs: Fs, op: Op)
    requires c.g.Valid() && Breaks(c, fs, op)
    ensures !OpFits(op) && (|op.data| >= 0x1_0000_0000 || CreateTarget(fs, op.path, op.suggest, c.intl).1 == op.suggest)
  {
    hide Split, ValidPath, DirAndBase, TotalCost, Cost;
    if ValidPath(op.path) { BaseShort(op.path); }
  }

  /** `n` times the letter a. */
  function Letters(n: nat): (s: seq<byte>)
    ensures |s| == n && SLASH !in s
  {
    seq(n, _ => 97)
  }

  /** A file of nothing under the suggested name "aaaaaaaaaaaaaaaa/aaaaaaaaaaaaaa" (31 characters, each part
      short enough) breaks every fresh volume with a free block. */
  lemma LongSuggestionBreaks(c: Config)
    requires c.g.Valid() && c.capacity >= 2
    ensures var name := Letters(16) + [SLASH] + Letters(14);
      |name| == 31 && Breaks(c, map[[] := Folder], WriteFile([], [COLON], Some(name)))
  {
    hide Split, TotalCost, Cost;
    var name, fs: Fs := Letters(16) + [SLASH] + Letters(14), map[[] := Folder];
    TwoLongParts(Letters(16), Letters(14));
    SplitExact([COLON], [COLON]);
    assert CreateTarget(fs, [COLON], Some(name), c.intl) == (Target.Entry([]), Some(name));
    OneFolder(c);
    EmptyFileCost(c);
    assert CreateIn(c, fs, [], name, Contents([])).0 == Done;
  }

  /** Parts without a slash that are short enough make a valid name. */
  lemma TwoLongParts(a: seq<byte>, b: seq<byte>)
    requires SLASH !in a && SLASH !in b && |a| <= 30 && |b| <= 30
    ensures ValidPath(a + [SLASH] + b)
  {
    hide Split;
    SplitExact(a, b);
    SplitExact(b, b);
  }

  lemma OneFolder(c: Config)
    requires c.g.Valid()
    ensures TotalCost(c, map[[] := Folder]) == 1
  {
    CostOfOne(c, map[[] := Folder], []);
    var fs: Fs := map[[] := Folder];
    assert fs - {[]} == map[];
  }

  lemma EmptyFileCost(c: Config)
    requires c.g.Valid()
    ensures Cost(c, Contents([])) == 1
  {
  }

  // ----- what runs guarantee -----

  /** Does this operation, in this state, take the entry at `p` away? */
  predicate Deletes(fs: Fs, op: Op, intl: bool, p: Path) {
    op.Delete? && var t := Resolve(fs, op.path, intl, true, true);
      t.Entry? && t.path <= p && (op.all || t.path == p)
  }

  /** Every operation but a deletion above it leaves an entry exactly as it is. */
  lemma EntryStays(c: Config, fs: Fs, op: Op, p: Path)
    requires c.g.Valid() && p in fs && !Deletes(fs, op, c.intl, p)
    ensures var (_, fs') := Step(c, fs, op); p in fs' && fs'[p] == fs[p]
  {
    hide TotalCost, Split, Upper, DirAndBase, ValidPath, RootAlias, Fold;
    if op.Delete? {
      var t := Resolve(fs, op.path, c.intl, true, true);
      if t.Entry? && !op.all && t.path != [] && t.path <= p {
        assert p in Below(fs, t.path);
      }
    }
  }

  /** A file written once reads back the same bytes after any run that does not delete it. */
  lemma {:induction false} FileSurvivesRun(c: Config, fs: Fs, ops: seq<Op>, n: nat, p: Path)
    requires c.g.Valid() && n <= |ops| && p in fs
    requires forall k :: 0 <= k < n ==> !Deletes(Run(c, fs, ops, k).1, ops[k], c.intl, p)
    ensures var fs' := Run(c, fs, ops, n).1; p in fs' && fs'[p] == fs[p]
  {
    hide Step, Deletes;
    if n > 0 {
      FileSurvivesRun(c, fs, ops, n - 1, p);
      EntryStays(c, Run(c, fs, ops, n - 1).1, ops[n - 1], p);
    }
  }

  /** The directory part of a valid path is valid. */
  lemma DirValid(s: seq<byte>)
    requires ValidPath(s)
    ensures var (dir, base) := DirAndBase(s);
      (dir.Some? ==> ValidPath(dir.value)) && (base.Some? ==> ValidPath(base.value))
  {
    DirAndBaseOfPath(s);
    var (dir, base) := DirAndBase(s);
    if dir.Some? {
      var d := Split(dir.value);
      assert forall i :: 0 <= i < |d| ==> Split(s)[i] == d[i];
      assert Split(s)[|d|] == base.UnwrapOr([]);
      if base.Some? {
        SlashUnique(base.value, |base.value|);
      }
    }
  }

  /** The path at which a create operation on path name `s` puts its entry. */
  function NewPath(parent: Path, s: seq<byte>, intl: bool): Path {
    Child(parent, DirAndBase(s).1.UnwrapOr([]), intl)
  }

  /** The folded path of a name is that of its directory part and its folded base name. */
  lemma FoldedParts(s: seq<byte>, intl: bool)
    ensures var (dir, base) := DirAndBase(s);
      Fold(Split(s), intl) == Child(if dir.Some? then Fold(Split(dir.value), intl) else [], base.UnwrapOr([]), intl)
  {
    hide LastSlash, Upper;
    DirAndBaseOfPath(s);
    var (dir, base) := DirAndBase(s);
    if dir.Some? {
      FoldConcat(Split(dir.value), base.UnwrapOr([]), intl);
    }
  }

  lemma FoldConcat(parts: seq<seq<byte>>, name: seq<byte>, intl: bool)
    ensures Fold(parts + [name], intl) == Fold(parts, intl) + [Upper(name, intl)]
  {
    hide Upper;
  }

  /** The path name used to create a directory finds it again exactly when neither the name nor its
      directory part is a root alias: `create_dir(":")` makes an entry no path name reaches, and
      `create_dir("/a")` makes "a", which "/a" does not find. */
  lemma CreatedIsFound(c: Config, fs: Fs, s: seq<byte>)
    requires c.g.Valid() && MakeDirSpec(c, fs, s).0 == Done
    ensures var (dir, base) := DirAndBase(s);
      var parent := if dir.Some? then Resolve(fs, dir.value, c.intl, false, true) else Target.Entry([]);
      && parent.Entry? && fs + map[NewPath(parent.path, s, c.intl) := Folder] == MakeDirSpec(c, fs, s).1
      && (Resolve(MakeDirSpec(c, fs, s).1, s, c.intl, true, true) == Target.Entry(NewPath(parent.path, s, c.intl))
          <==> !RootAlias(s) && (dir.Some? ==> !RootAlias(dir.value)))
  {
    hide TotalCost, Split, Upper, DirAndBase, ValidPath, RootAlias, Fold;
    FoldedParts(s, c.intl);
    DirValid(s);
  }

  /** Where `write_file` puts the file. */
  function WrittenAt(fs: Fs, s: seq<byte>, suggest: Option<seq<byte>>, intl: bool): Path {
    var (parent, name) := CreateTarget(fs, s, suggest, intl);
    Child(if parent.Entry? then parent.path else [], name.UnwrapOr([]), intl)
  }

  /** Case-insensitive memory: once written, a file gives its bytes under every spelling of its path, after
      any run that does not delete it or a directory above it. */
  lemma WrittenIsRead(c: Config, fs: Fs, data: seq<byte>, s: seq<byte>, suggest: Option<seq<byte>>,
          ops: seq<Op>, n: nat, t: seq<byte>)
    requires c.g.Valid() && n <= |ops| && WriteFileSpec(c, fs, data, s, suggest).0 == Done
    requires var fs1, p := WriteFileSpec(c, fs, data, s, suggest).1, WrittenAt(fs, s, suggest, c.intl);
      forall k :: 0 <= k < n ==> !Deletes(Run(c, fs1, ops, k).1, ops[k], c.intl, p)
    requires ValidPath(t) && !RootAlias(t) && Fold(Split(t), c.intl) == WrittenAt(fs, s, suggest, c.intl)
    ensures ReadFileSpec(Run(c, WriteFileSpec(c, fs, data, s, suggest).1, ops, n).1, t, c.intl) == Data(data)
  {
    hide TotalCost, Split, Upper, DirAndBase, ValidPath, RootAlias, Fold, Deletes, Run, Cost;
    var fs1, p := WriteFileSpec(c, fs, data, s, suggest).1, WrittenAt(fs, s, suggest, c.intl);
    assert p in fs1 && fs1[p] == Contents(data);
    FileSurvivesRun(c, fs1, ops, n, p);
  }

  /** A path name that led to no directory is itself such a spelling exactly when it has a base name (or the
      suggested name is empty too) and its directory part is no root alias. */
  lemma WrittenAtPath(c: Config, fs: Fs, data: seq<byte>, s: seq<byte>, suggest: Option<seq<byte>>)
    requires c.g.Valid() && WriteFileSpec(c, fs, data, s, suggest).0 == Done
    requires !RootAlias(s) && !Resolve(fs, s, c.intl, false, true).Entry?
    ensures var (dir, base) := DirAndBase(s);
      Fold(Split(s), c.intl) == WrittenAt(fs, s, suggest, c.intl)
      <==> (base.Some? || suggest == Some([])) && (dir.Some? ==> !RootAlias(dir.value))
  {
    hide TotalCost, Split, Upper, Child, DirAndBase, ValidPath, RootAlias, Fold, Cost;
    FoldedParts(s, c.intl);
    DirValid(s);
    var (dir, base) := DirAndBase(s);
    var (parent, name) := CreateTarget(fs, s, suggest, c.intl);
    var above := if dir.Some? then Fold(Split(dir.value), c.intl) else [];
    ChildInjective(above, base.UnwrapOr([]), parent.path, name.value, c.intl);
    if base.None? { NoName(name.value, c.intl); }
  }

  lemma ChildInjective(dir: Path, name: seq<byte>, dir': Path, name': seq<byte>, intl: bool)
    ensures Child(dir, name, intl) == Child(dir', name', intl) <==>
      dir == dir' && Upper(name, intl) == Upper(name', intl)
  {
    hide Upper;
    var a, b := Child(dir, name, intl), Child(dir', name', intl);
    if a == b {
      assert a[|dir|] == Upper(name, intl) && a[..|dir|] == dir;
      assert b[|dir'|] == Upper(name', intl) && b[..|dir'|] == dir';
    }
  }

  lemma NoName(name: seq<byte>, intl: bool)
    ensures Upper(name, intl) == Upper([], intl) <==> name == []
  {
    hide Upper;
  }

  // ----- what each path operation answers and changes, entry by entry -----

  /** Where a path name leads: to the root directory for the aliases, and otherwise to exactly the entry at the
      folded path, if it is of a kind asked for. */
  lemma ResolveExact(fs: Fs, s: seq<byte>, intl: bool, allowFile: bool, allowDir: bool)
    ensures var (t, p) := (Resolve(fs, s, intl, allowFile, allowDir), Fold(Split(s), intl));
      && (t == Bad <==> exists part :: part in Split(s) && |part| > 30)
      && (t != Bad && (s == [] || s == [0x2F] || s == [0x3A]) ==> t == Target.Entry([]))
      && (t != Bad && s != [] && s != [0x2F] && s != [0x3A] ==>
        (t == Target.Entry(p) <==> p in fs && if fs[p] == Folder then allowDir else allowFile))
      && (t != Bad && t != Target.Entry(p) && s != [] && s != [0x2F] && s != [0x3A] ==> t == Nothing)
  {
    hide Split, Upper, Fold;
    if part :| part in Split(s) && |part| > 30 {
      var i :| 0 <= i < |Split(s)| && Split(s)[i] == part;
    } else {
      assert forall i :: 0 <= i < |Split(s)| ==> Split(s)[i] in Split(s);
    }
  }

  /** `create_dir` on a valid path with a base name: the parent is the root directory for a missing directory
      part or an alias, and otherwise the entry at its folded path. */
  lemma MakeDirExact(c: Config, fs: Fs, path: seq<byte>)
    requires c.g.Valid() && ValidPath(path) && DirAndBase(path).1.Some?
    ensures var (r, fs') := MakeDirSpec(c, fs, path);
      var (dir, base) := DirAndBase(path);
      var d := if dir.None? || RootAlias(dir.value) then [] else Fold(Split(dir.value), c.intl);
      var found := dir.None? || RootAlias(dir.value) || (d in fs && fs[d] == Folder);
      var q := d + [Upper(base.value, c.intl)];
      && (r == Fail(Crash) <==> !found)
      && (r == Fail(NameExists) <==> found && q in fs)
      && (r == Fail(NoFreeBlocks) <==> found && q !in fs && TotalCost(c, fs) >= c.capacity)
      && (r == Done <==> found && q !in fs && TotalCost(c, fs) < c.capacity)
      && (r != Done ==> fs' == fs)
      && (r == Done ==> forall p :: p in fs' <==> p in fs || p == q)
      && (r == Done ==> fs'[q] == Folder && forall p :: p in fs ==> fs'[p] == fs[p])
  {
    hide Split, Upper, ValidPath, RootAlias, Fold, DirAndBase, TotalCost;
    DirValid(path);
  }

  /** Where `write_file` creates and under which name: in the directory the path leads to under the suggested
      name, and otherwise in the directory part under the base name (or the suggested name without one). */
  lemma CreateTargetExact(fs: Fs, s: seq<byte>, suggest: Option<seq<byte>>, intl: bool)
    requires ValidPath(s)
    ensures var ((parent, name), p) := (CreateTarget(fs, s, suggest, intl), Fold(Split(s), intl));
      var (dir, base) := DirAndBase(s);
      var asDir := p in fs && fs[p] == Folder;
      && (RootAlias(s) ==> parent == Target.Entry([]) && name == suggest)
      && (!RootAlias(s) && asDir ==> parent == Target.Entry(p) && name == suggest)
      && (!RootAlias(s) && !asDir ==> name == if base.Some? then base else suggest)
      && (!RootAlias(s) && !asDir && (dir.None? || RootAlias(dir.value)) ==> parent == Target.Entry([]))
      && (!RootAlias(s) && !asDir && dir.Some? && !RootAlias(dir.value) ==> var d := Fold(Split(dir.value), intl);
           parent == if d in fs && fs[d] == Folder then Target.Entry(d) else Nothing)
  {
    hide Split, Upper, ValidPath, RootAlias, Fold, DirAndBase;
    DirValid(s);
  }

  /** `write_file` with such a target: the checks in their order, and one new entry with exactly the data. */
  lemma WriteExact(c: Config, fs: Fs, data: seq<byte>, path: seq<byte>, suggest: Option<seq<byte>>)
    requires c.g.Valid()
    ensures var (r, fs') := WriteFileSpec(c, fs, data, path, suggest);
      var (parent, name) := CreateTarget(fs, path, suggest, c.intl);
      var ok := parent.Entry? && name.Some? && ValidPath(name.value);
      var q := (if parent.Entry? then parent.path else []) + [Upper(name.UnwrapOr([]), c.intl)];
      && (r == Fail(InvalidParent) <==> parent.Nothing?)
      && (r == Fail(InvalidName) <==> !parent.Nothing? && !ok)
      && (r == Fail(NameExists) <==> ok && q in fs)
      && (r == Fail(NoFreeBlocks) <==> ok && q !in fs && TotalCost(c, fs) + Cost(c, Contents(data)) > c.capacity)
      && (r == Done <==> ok && q !in fs && TotalCost(c, fs) + Cost(c, Contents(data)) <= c.capacity)
      && (r != Done ==> fs' == fs)
      && (r == Done ==> forall p :: p in fs' <==> p in fs || p == q)
      && (r == Done ==> fs'[q] == Contents(data) && forall p :: p in fs ==> fs'[p] == fs[p])
  {
    hide Upper, ValidPath, CreateTarget, TotalCost, Cost;
    var parent := CreateTarget(fs, path, suggest, c.intl).0;
    assert parent.Bad? || parent.Nothing? || parent.Entry?;
  }

  /** `read_file` gives some bytes exactly when a file with these bytes is at the folded path. */
  lemma ReadExact(fs: Fs, path: seq<byte>, intl: bool, bytes: seq<byte>)
    ensures var (r, p) := (ReadFileSpec(fs, path, intl), Fold(Split(path), intl));
      && (r == Fail(InvalidName) <==> !ValidPath(path))
      && (!RootAlias(path) ==> (r == Data(bytes) <==> ValidPath(path) && p in fs && fs[p] == Contents(bytes)))
      && (!RootAlias(path) ==> (r == Fail(NotFound) <==> ValidPath(path) && !(p in fs && fs[p].Contents?)))
      && (ValidPath(path) && RootAlias(path) && [] in fs && fs[[]] == Folder ==> r == Fail(Crash))
  {
    hide Split, Upper, ValidPath, RootAlias, Fold;
  }

  /** Below a path that names an entry other than the root: refused exactly when `all` is not set and something
      lies below, and otherwise exactly the entry and what lies below it goes. */
  lemma DeletionExact(fs: Fs, path: seq<byte>, all: bool, intl: bool)
    requires ValidPath(path) && !RootAlias(path)
    ensures var (r, fs') := DeleteSpec(fs, path, all, intl);
      var p := Fold(Split(path), intl);
      && (r == Fail(NotFound) <==> p !in fs)
      && (r == Fail(DeleteNotAllowed) <==> p in fs && !all && exists q :: q in fs && p <= q && q != p)
      && (r == Done <==> p in fs && (all || forall q :: q in fs && p <= q ==> q == p))
      && (r != Done ==> fs' == fs)
      && (r == Done ==> forall q :: q in fs' <==> q in fs && !(p <= q))
      && (forall q :: q in fs' ==> q in fs && fs'[q] == fs[q])
  {
    hide Split, Upper, ValidPath, RootAlias, Fold, DeleteOutcome;
    var p := Fold(Split(path), intl);
    assert p != [];
    if p in fs { OutcomeExact(fs, p, all); }
  }

  /** The same for an entry by its folded path, the root directory included. */
  lemma OutcomeExact(fs: Fs, p: Path, all: bool)
    requires p in fs
    ensures var (r, fs') := DeleteOutcome(fs, p, all);
      && (r == Fail(Crash) <==> p == [])
      && (r == Fail(DeleteNotAllowed) <==> p != [] && !all && exists q :: q in fs && p <= q && q != p)
      && (r == Done <==> p != [] && (all || forall q :: q in fs && p <= q ==> q == p))
      && (r != Done && !(p == [] && all) ==> fs' == fs)
      && (p == [] && all ==> forall q :: q in fs' <==> q in fs && q == p)
      && (r == Done ==> forall q :: q in fs' <==> q in fs && !(p <= q))
      && (forall q :: q in fs' ==> q in fs && fs'[q] == fs[q])
  {
    LessBelow(fs, p);
    if q :| q in fs && p <= q && q != p { assert q in Below(fs, p); }
    if q :| q in Below(fs, p) { assert q in fs && p <= q && q != p; }
  }

  lemma LessBelow(fs: Fs, p: Path)
    ensures forall q :: q in WithoutBelow(fs, p) <==> q in fs && (p <= q ==> q == p)
    ensures forall q :: q in WithoutBelow(fs, p) ==> WithoutBelow(fs, p)[q] == fs[q]
  {
  }

  /** The root directory is never deleted, but with `all` everything below it goes before the error; a path
      with an over-long component changes nothing. */
  lemma DeletionElse(fs: Fs, path: seq<byte>, all: bool, intl: bool)
    requires !ValidPath(path) || RootAlias(path)
    ensures var (r, fs') := DeleteSpec(fs, path, all, intl);
      && r == Fail(if ValidPath(path) then Crash else InvalidName)
      && (!(ValidPath(path) && all) ==> fs' == fs)
      && (ValidPath(path) && all ==> forall q :: q in fs' <==> q in fs && q == [])
      && (forall q :: q in fs' ==> q in fs && fs'[q] == fs[q])
  {
    hide Split, Upper, ValidPath, RootAlias, Fold;
    LessBelow(fs, []);
  }

  /** After a deletion that succeeded, no path name leads to the entry or to anything below it, whatever its
      spelling, until something is created there again. */
  lemma DeletedIsGone(c: Config, fs: Fs, path: seq<byte>, all: bool, t: seq<byte>, allowFile: bool, allowDir: bool)
    requires c.g.Valid() && ValidPath(path) && !RootAlias(path) && DeleteSpec(fs, path, all, c.intl).0 == Done
    requires ValidPath(t) && !RootAlias(t) && Fold(Split(path), c.intl) <= Fold(Split(t), c.intl)
    ensures var (_, fs') := Step(c, fs, Delete(path, all));
      && Resolve(fs', t, c.intl, allowFile, allowDir) == Nothing
      && ReadFileSpec(fs', t, c.intl) == Fail(NotFound)
      && (forall again :: DeleteSpec(fs', t, again, c.intl) == (Fail(NotFound), fs'))
  {
    DeletionExact(fs, path, all, c.intl);
    hide Split, Upper, ValidPath, RootAlias, Fold, DeleteOutcome;
  }

  // ----- deleting a subtree entry by entry -----

  /** The map after the subtrees at the first `n` of `ps` are deleted one after the other. */
  function Pruned(fs: Fs, ps: seq<Path>, n: nat): Fs
    requires n <= |ps|
  {
    if n == 0 then fs else CutOff(Pruned(fs, ps, n - 1), ps[n - 1])
  }

  lemma PrunedNone(fs: Fs, ps: seq<Path>)
    ensures Pruned(fs, ps, 0) == fs
  {
  }

  lemma PrunedNext(fs: Fs, ps: seq<Path>, n: nat)
    requires n < |ps|
    ensures Pruned(fs, ps, n + 1) == CutOff(Pruned(fs, ps, n), ps[n])
  {
  }

  lemma {:induction false} PrunedMember(fs: Fs, ps: seq<Path>, n: nat, q: Path)
    requires n <= |ps|
    ensures q in Pruned(fs, ps, n) <==> q in fs && forall j :: 0 <= j < n ==> !(ps[j] <= q)
    ensures q in Pruned(fs, ps, n) ==> Pruned(fs, ps, n)[q] == fs[q]
  {
    if n > 0 {
      PrunedMember(fs, ps, n - 1, q);
      assert q in Pruned(fs, ps, n) <==> q in Pruned(fs, ps, n - 1) && !(ps[n - 1] <= q);
    }
  }

  /** Paths of entries of the directory at `p`. */
  ghost predicate Siblings(fs: Fs, p: Path, ps: seq<Path>) {
    && (forall i :: 0 <= i < |ps| ==> ps[i] in fs && |ps[i]| == |p| + 1 && p <= ps[i])
    && (forall i, j :: 0 <= i < j < |ps| ==> ps[i] != ps[j])
  }

  lemma EqualLength(a: Path, b: Path)
    requires |a| == |b| && a != b
    ensures !(a <= b)
  {
  }

  /** Deleting siblings does not touch the next one. */
  lemma PrunedKeeps(fs: Fs, p: Path, ps: seq<Path>, i: nat)
    requires Siblings(fs, p, ps) && i < |ps|
    ensures ps[i] in Pruned(fs, ps, i)
  {
    PrunedMember(fs, ps, i, ps[i]);
    forall j | 0 <= j < i ensures !(ps[j] <= ps[i]) {
      EqualLength(ps[j], ps[i]);
    }
  }

  lemma BelowEmpty(fs: Fs, p: Path)
    ensures Below(fs, p) == map[] ==> WithoutBelow(fs, p) == fs
    ensures Below(WithoutBelow(fs, p), p) == map[]
    ensures p in fs <==> p in WithoutBelow(fs, p)
  {
    if Below(fs, p) == map[] {
      forall q | q in fs ensures q in WithoutBelow(fs, p) {
        assert q !in Below(fs, p);
      }
    }
  }
}
