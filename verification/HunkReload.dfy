/** Exactly which segments survive a file: what a block that is read wrongly does to the segment it belongs to. */
module HunkReload {
  import opened Bytes
  import opened HunkBlocks
  import opened HunkLoadSeg
  import HunkStream

  // ----- the rounds over a stream that starts like the blocks of segments -----

  /** Lists that are closed stay, the open one only grows. */
  lemma {:induction false} RoundGrows(st: Split, w: seq<Block>, n: nat)
    requires (st.open ==> st.lists != []) && n <= |st.lists|
    ensures var r := Round(st, w);
      r.Some? ==> |r.value.lists| >= |st.lists| && forall i :: 0 <= i < |st.lists| ==> st.lists[i] <= r.value.lists[i]
    ensures var r := Round(st, w);
      r.Some? && (n < |st.lists| || !st.open) ==> forall i :: 0 <= i < n ==> r.value.lists[i] == st.lists[i]
    decreases |w|
  {
    if w != [] {
      if w[0].End? {
        RoundGrows(Split(st.lists, false), w[1..], n);
      } else if Begins(w[0]) || Extra(w[0]) {
        RoundGrows(Added(st, w[0]), w[1..], n);
      }
    }
  }

  lemma {:induction false} RoundPast(lists: seq<seq<Block>>, segs: seq<HunkSegment>, more: seq<Block>)
    requires AllBuilt(segs) && Complete(segs)
    ensures Round(Split(lists, false), AllBlocks(segs) + more) == Round(Split(lists + Lists(segs), false), more)
    decreases |segs|
  {
    if segs == [] {
      assert lists + [] == lists && AllBlocks(segs) + more == more;
    } else {
      var rest := AllBlocks(segs[1..]) + more;
      assert AllBlocks(segs) + more == SegBlocks(segs[0]) + [End] + rest;
      RoundSegment(lists, segs[0], rest);
      RoundPast(lists + [SegBlocks(segs[0])], segs[1..], more);
      assert lists + [SegBlocks(segs[0])] + Lists(segs[1..]) == lists + Lists(segs);
    }
  }

  lemma ListsMore(segs: seq<HunkSegment>, more: seq<seq<Block>>)
    requires Complete(segs)
    ensures segs == [] ==> Lists(segs) == [] && Lists(segs) + more == more
    ensures segs != [] ==> Lists(segs) == [SegBlocks(segs[0])] + Lists(segs[1..])
    ensures segs != [] ==> var l := Lists(segs) + more;
      l != [] && l[0] == SegBlocks(segs[0]) && l[1..] == Lists(segs[1..]) + more
  {
    hide SegBlocks, Lists;
    ListsFirst(segs);
    NothingInFront(more);
    if segs != [] { OneInFront(SegBlocks(segs[0]), Lists(segs[1..]), more); }
  }

  lemma ListsFirst(segs: seq<HunkSegment>)
    requires Complete(segs)
    ensures Lists(segs) == if segs == [] then [] else [SegBlocks(segs[0])] + Lists(segs[1..])
  {
    hide SegBlocks;
  }

  lemma NothingInFront<T>(s: seq<T>)
    ensures [] + s == s
  {
  }

  lemma OneInFront<T>(x: T, a: seq<T>, b: seq<T>)
    ensures ([x] + a + b)[0] == x && ([x] + a + b)[1..] == a + b
  {
  }

  lemma FirstOfSecond(lists: seq<seq<Block>>)
    requires lists != [] && Segments(lists[0]) == 1
    ensures Second(lists) == Join([lists[0]], Second(lists[1..]))
  {
    hide Segments;
  }

  lemma {:induction false} SecondPast(segs: seq<HunkSegment>, more: seq<seq<Block>>)
    requires AllBuilt(segs) && Complete(segs)
    ensures Second(Lists(segs) + more) == Join(Lists(segs), Second(more))
  {
    hide Segments, Cut, SegBlocks, BuiltSegment, Lists, Second;
    ListsMore(segs, more);
    if segs == [] {
      JoinNone(Second(more));
    } else {
      OneSegment(segs[0]);
      FirstOfSecond(Lists(segs) + more);
      SecondPast(segs[1..], more);
      JoinJoin([SegBlocks(segs[0])], Lists(segs[1..]), Second(more));
    }
  }

  lemma FirstOfAll(lists: seq<seq<Block>>, s: HunkSegment)
    requires lists != [] && ParseSeg(NO_SEGMENT, lists[0]) == Some(s)
    ensures ParseAll(lists) == Join([s], ParseAll(lists[1..]))
  {
    hide ParseSeg;
  }

  lemma {:induction false} ParsePast(segs: seq<HunkSegment>, more: seq<seq<Block>>)
    requires AllBuilt(segs) && Complete(segs)
    ensures ParseAll(Lists(segs) + more) == Join(segs, ParseAll(more))
  {
    hide ParseSeg, SegBlocks, BuiltSegment, ParseAll, Lists;
    ListsMore(segs, more);
    if segs == [] {
      JoinNone(ParseAll(more));
    } else {
      ParseCreated(segs[0]);
      ParsePast(segs[1..], more);
      FirstOfAll(Lists(segs) + more, segs[0]);
      JoinJoin([segs[0]], segs[1..], ParseAll(more));
      assert [segs[0]] + segs[1..] == segs;
    }
  }

  // ----- the list of the segment with the wrong block -----

  /** A piece of a list: it starts with what was collected and holds no further segment block. */
  lemma {:induction false} CutGrows(cur: seq<Block>, l: seq<Block>)
    ensures var r := Cut(Some(cur), l);
      r.Some? ==> r.value != [] && cur <= r.value[0] && Segments(r.value[0][|cur|..]) == 0
    decreases |l|
  {
    if l == [] {
      assert cur[|cur|..] == [];
    } else if Begins(l[0]) {
      assert cur[|cur|..] == [];
      CutGrows([l[0]], l[1..]);
    } else {
      CutGrows(cur + [l[0]], l[1..]);
      var r := Cut(Some(cur), l);
      if r.Some? {
        var tail := r.value[0][|cur|..];
        assert tail[0] == (cur + [l[0]])[|cur|] && tail[1..] == r.value[0][|cur| + 1..];
      }
    }
  }

  lemma {:induction false} CutExtras(cur: seq<Block>, e: seq<Block>, tail: seq<Block>)
    requires ExtrasOnly(e)
    ensures Cut(Some(cur), e + tail) == Cut(Some(cur + e), tail)
    decreases |e|
  {
    if e == [] {
      assert e + tail == tail && cur + e == cur;
    } else {
      assert (e + tail)[0] == e[0] && (e + tail)[1..] == e[1..] + tail;
      CutExtras(cur + [e[0]], e[1..], tail);
      assert cur + [e[0]] + e[1..] == cur + e;
    }
  }

  lemma {:induction false} SegmentsSum(a: seq<Block>, b: seq<Block>)
    ensures Segments(a + b) == Segments(a) + Segments(b)
  {
    if a == [] {
      assert a + b == b;
    } else {
      assert (a + b)[1..] == a[1..] + b;
      SegmentsSum(a[1..], b);
    }
  }

  /** The first piece of a list that starts with a segment block `b` and its extras `e`. */
  lemma SecondStarts(b: Block, e: seq<Block>, m: seq<seq<Block>>)
    requires Begins(b) && ExtrasOnly(e) && m != [] && [b] + e <= m[0]
    ensures var r := Second(m);
      r.Some? ==> r.value != [] && [b] + e <= r.value[0] && Segments(r.value[0][1 + |e|..]) == 0
  {
    var p, tail := [b] + e, m[0][1 + |e|..];
    assert m[0] == p + tail && p[0] == b && p[1..] == e;
    SegmentsSum(p, tail);
    NoSegments(e);
    assert Segments(m[0]) == 1 + Segments(tail);
    if Segments(tail) > 0 {
      assert m[0][0] == b && m[0][1..] == e + tail;
      CutExtras([b], e, tail);
      CutGrows(p, tail);
      JoinNone(Cut(Some([b]), e + tail));
    }
  }

  /** What parsing has found stays. */
  lemma {:induction false} ParseGrows(s: HunkSegment, l: seq<Block>)
    ensures var r := ParseSeg(s, l);
      r.Some? ==> OrNone(s.relocs) <= OrNone(r.value.relocs) && (s.symbols.Some? ==> r.value.symbols == s.symbols)
    ensures ParseSeg(s, l).Some? && Segments(l) == 0 ==> ParseSeg(s, l).value.seg == s.seg
    decreases |l|
  {
    if l != [] {
      var b := l[0];
      if Begins(b) {
        ParseGrows(s.(seg := Some(b)), l[1..]);
      } else if b.Symbols? {
        if s.symbols.None? { ParseGrows(s.(symbols := Some(b)), l[1..]); }
      } else if b.RelocLong? || b.RelocWord? {
        ParseGrows(s.(relocs := Some(OrNone(s.relocs) + [b])), l[1..]);
      }
    }
  }

  /** A segment parsed from a list that starts with the first `j` blocks of `s` and then has `y` where `s` has
      another block of its kind is not `s`. */
  lemma ParsedDiffers(s: HunkSegment, j: nat, y: Block, l: seq<Block>)
    requires BuiltSegment(s) && j < |SegBlocks(s)| && y != SegBlocks(s)[j] && Alike(y, SegBlocks(s)[j])
    requires SegBlocks(s)[..j] + [y] <= l && Segments(l[j + 1..]) == 0
    ensures ParseSeg(NO_SEGMENT, l) != Some(s)
  {
    hide ParseSeg, Segments;
    var p, tail, relocs := SegBlocks(s)[..j], l[j + 1..], OrNone(s.relocs);
    assert l == p + [y] + tail;
    if j == 0 {
      assert l == [y] + tail;
      ParseFirst(y, tail);
      ParseGrows(HunkSegment(Some(y), None, None), tail);
    } else {
      var b := s.seg.value;
      var t := HunkSegment(Some(b), None, None);
      assert l == [b] + (p[1..] + ([y] + tail));
      ParseFirst(b, p[1..] + ([y] + tail));
      if j <= |relocs| {
        assert p[1..] == relocs[..j - 1] && SegBlocks(s)[j] == relocs[j - 1];
        AfterRelocs(t, relocs[..j - 1], y, tail);
        assert (relocs[..j - 1] + [y])[j - 1] == y;
      } else {
        assert p[1..] == relocs && SegBlocks(s)[j] == s.symbols.value;
        AfterAllRelocs(t, relocs, y, tail);
      }
    }
  }

  lemma ParseFirst(b: Block, l: seq<Block>)
    requires Begins(b)
    ensures ParseSeg(NO_SEGMENT, [b] + l) == ParseSeg(HunkSegment(Some(b), None, None), l)
  {
    assert ([b] + l)[0] == b && ([b] + l)[1..] == l;
  }

  lemma AfterAllRelocs(t: HunkSegment, rs: seq<Block>, y: Block, tail: seq<Block>)
    requires t.symbols.None? && RelocsOnly(rs) && y.Symbols?
    ensures var r := ParseSeg(t, rs + ([y] + tail)); r.Some? ==> r.value.symbols == Some(y)
  {
    ParseRelocs(t, rs, [y] + tail);
    var u := if rs == [] then t else t.(relocs := Some(OrNone(t.relocs) + rs));
    assert ([y] + tail)[0] == y && ([y] + tail)[1..] == tail;
    ParseGrows(u.(symbols := Some(y)), tail);
  }

  lemma AfterRelocs(t: HunkSegment, rs: seq<Block>, y: Block, tail: seq<Block>)
    requires t.relocs.None? && RelocsOnly(rs) && (y.RelocLong? || y.RelocWord?)
    ensures var r := ParseSeg(t, rs + ([y] + tail)); r.Some? ==> rs + [y] <= OrNone(r.value.relocs)
  {
    assert rs + ([y] + tail) == (rs + [y]) + tail;
    ParseRelocs(t, rs + [y], tail);
    assert [] + (rs + [y]) == rs + [y];
    ParseGrows(t.(relocs := Some(rs + [y])), tail);
  }

  // ----- a wrong block in a file -----

  /** Segments parsed from blocks that go wrong inside segment `q` differ there. */
  lemma WrongSegment(segs: seq<HunkSegment>, q: nat, j: nat, y: Block, w: seq<Block>)
    requires AllBuilt(segs) && q < |segs| && Complete(segs[..q]) && j < |SegBlocks(segs[q])|
    requires y != SegBlocks(segs[q])[j] && Alike(y, SegBlocks(segs[q])[j])
    requires AllBlocks(segs[..q]) + SegBlocks(segs[q])[..j] + [y] <= w
    ensures var r := Round(Split([], false), w);
      r.Some? && Second(r.value.lists).Some? ==> ParseAll(Second(r.value.lists).value) != Some(segs)
  {
    hide Round, Second, ParseAll, ParseSeg, AllBlocks, SegBlocks;
    var s, done := segs[q], Lists(segs[..q]);
    var p := SegBlocks(s)[..j] + [y];
    var more := w[|AllBlocks(segs[..q])| + j + 1..];
    assert w == AllBlocks(segs[..q]) + (p + more);
    RoundPast([], segs[..q], p + more);
    assert [] + done == done;
    StartOf(s, j, y);
    RoundStarts(done, p, more);
    var r := Round(Split([], false), w);
    if r.Some? && Second(r.value.lists).Some? {
      var lists := r.value.lists;
      var m := lists[|done|..];
      assert lists == done + m && m[0] == lists[|done|];
      SecondPast(segs[..q], m);
      SecondStarts(p[0], p[1..], m);
      assert p == [p[0]] + p[1..];
      var n := Second(m).value;
      ParsePast(segs[..q], n);
      ParsedDiffers(s, j, y, n[0]);
      if ParseAll(done + n) == Some(segs) {
        assert segs[q..] == ParseAll(n).value;
        FirstParsed(n);
      }
    }
  }

  lemma FirstParsed(n: seq<seq<Block>>)
    requires n != [] && ParseAll(n).Some?
    ensures ParseAll(n).value != [] && ParseSeg(NO_SEGMENT, n[0]) == Some(ParseAll(n).value[0])
  {
    hide ParseSeg;
  }

  lemma StartOf(s: HunkSegment, j: nat, y: Block)
    requires BuiltSegment(s) && j < |SegBlocks(s)| && Alike(y, SegBlocks(s)[j])
    ensures var p := SegBlocks(s)[..j] + [y]; Begins(p[0]) && ExtrasOnly(p[1..])
  {
  }

  /** A list opened after the closed ones starts with the blocks that opened it. */
  lemma RoundStarts(done: seq<seq<Block>>, p: seq<Block>, more: seq<Block>)
    requires p != [] && Begins(p[0]) && ExtrasOnly(p[1..])
    ensures var r := Round(Split(done, false), p + more);
      r.Some? ==> |r.value.lists| > |done| && r.value.lists[..|done|] == done && p <= r.value.lists[|done|]
  {
    assert (p + more)[0] == p[0] && (p + more)[1..] == p[1..] + more;
    assert Round(Split(done, false), p + more) == Round(Split(done + [[p[0]]], true), p[1..] + more);
    RoundExtras(done, [p[0]], p[1..], more);
    assert [p[0]] + p[1..] == p;
    hide Round;
    RoundGrows(Split(done + [p], true), more, |done|);
  }

  /** The segment and the place in it of a block of a file. */
  lemma {:induction false} Locate(segs: seq<HunkSegment>, i: nat) returns (q: nat, j: nat)
    requires Complete(segs) && i < |AllBlocks(segs)| && !AllBlocks(segs)[i].End?
    ensures q < |segs| && Complete(segs[..q]) && j < |SegBlocks(segs[q])|
    ensures AllBlocks(segs)[i] == SegBlocks(segs[q])[j]
    ensures AllBlocks(segs)[..i] == AllBlocks(segs[..q]) + SegBlocks(segs[q])[..j]
  {
    hide SegBlocks;
    var here, rest := SegBlocks(segs[0]) + [End], AllBlocks(segs[1..]);
    assert AllBlocks(segs) == here + rest;
    if i < |here| {
      q, j := 0, i;
      assert AllBlocks(segs[..0]) == [];
    } else {
      var k;
      k, j := Locate(segs[1..], i - |here|);
      q := k + 1;
      assert segs[..q][0] == segs[0] && segs[..q][1..] == segs[1..][..k];
      assert AllBlocks(segs)[..i] == here + rest[..i - |here|];
    }
  }

  // ----- saving and loading -----

  /** All numbers fit their fields, so that the file can be written. */
  ghost predicate Writes(segs: seq<HunkSegment>) {
    Complete(segs) && forall i :: 0 <= i < |segs| ==>
      forall j :: 0 <= j < |SegBlocks(segs[i])| ==> Fits(SegBlocks(segs[i])[j])
  }

  ghost predicate AllFit(blks: seq<Block>) { forall i :: 0 <= i < |blks| ==> Fits(blks[i]) }

  lemma {:induction false} BlocksFit(segs: seq<HunkSegment>)
    requires Writes(segs)
    ensures AllFit(AllBlocks(segs))
  {
    hide Fits, SegBlocks;
    if segs != [] {
      BlocksFit(segs[1..]);
      assert Fits(End) by { EndSavable(true, true); }
    }
  }

  lemma FileFits(segs: seq<HunkSegment>)
    requires 0 < |segs| < 0x1_0000_0000 && AllBuilt(segs) && Writes(segs)
    ensures Complete(segs) && CreateFile(segs).Some? && AllFit(CreateFile(segs).value)
  {
    hide SegBlocks, AllBlocks;
    BlocksFit(segs);
    forall i | 0 <= i < |segs| ensures segs[i].seg.value.sizeLongs < 0x1_0000_0000 { SizeFits(segs[i]); }
  }

  lemma SizeFits(s: HunkSegment)
    requires BuiltSegment(s) && forall j :: 0 <= j < |SegBlocks(s)| ==> Fits(SegBlocks(s)[j])
    ensures s.seg.value.sizeLongs < 0x1_0000_0000
  {
    assert SegBlocks(s)[0] == s.seg.value;
  }

  /** Reading what was written and parsing it gives the segments again. */
  ghost predicate Reloads(segs: seq<HunkSegment>, written: bool, read: bool)
    requires CreateFile(segs).Some? && AllFit(CreateFile(segs).value) && Complete(segs)
  {
    var file := FileOf(PutFile(CreateFile(segs).value, written), read);
    file.Ok? && file.rest == [] && ParseFile(file.value) == Some((segs, Sizes(segs)))
  }

  /** Saving and loading is the identity exactly on savable segments. */
  lemma SaveThenLoadIff(segs: seq<HunkSegment>, written: bool, read: bool)
    requires 0 < |segs| < 0x1_0000_0000 && AllBuilt(segs) && Writes(segs)
    ensures CreateFile(segs).Some? && AllFit(CreateFile(segs).value)
    ensures Reloads(segs, written, read) <==> forall i :: 0 <= i < |segs| ==> Savable(segs[i], written, read)
  {
    hide Savable, Reloads, Writes, AllBuilt, AllFit, CreateFile;
    FileFits(segs);
    if forall i :: 0 <= i < |segs| ==> Savable(segs[i], written, read) {
      Reloaded(segs, written, read);
    } else {
      NotReloaded(segs, written, read);
    }
  }

  lemma Reloaded(segs: seq<HunkSegment>, written: bool, read: bool)
    requires 0 < |segs| < 0x1_0000_0000 && Complete(segs)
    requires CreateFile(segs).Some? && AllFit(CreateFile(segs).value)
    requires forall i :: 0 <= i < |segs| ==> Savable(segs[i], written, read)
    ensures Reloads(segs, written, read)
  {
    hide Savable, FileOf, PutFile, ParseFile, CreateFile, Fits;
    SaveThenLoad(segs, written, read);
  }

  lemma NotReloaded(segs: seq<HunkSegment>, written: bool, read: bool)
    requires 0 < |segs| < 0x1_0000_0000 && AllBuilt(segs) && Writes(segs)
    requires CreateFile(segs).Some? && AllFit(CreateFile(segs).value)
    requires exists i :: 0 <= i < |segs| && !Savable(segs[i], written, read)
    ensures !Reloads(segs, written, read)
  {
    hide Fits, Good, FileOf, PutFile, ParseAll, Round, Second, SegBlocks, AllBlocks, Savable, Writes, Alike;
    var blks := CreateFile(segs).value;
    var file := FileOf(PutFile(blks, written), read);
    SomeBad(segs, written, read);
    var i := FirstWrong(blks, written, read);
    if file.Ok? && ParseFile(file.value).Some? {
      var v := file.value;
      if i == 0 {
        HeaderBad(segs, written, read);
      } else {
        assert blks[i] == AllBlocks(segs)[i - 1] && blks[1..] == AllBlocks(segs);
        EndSavable(written, read);
        var q, j := Locate(segs, i - 1);
        assert v[1..][..i - 1] == AllBlocks(segs)[..i - 1] by { assert v[..i][1..] == blks[..i][1..]; }
        assert v[1..][..i] == v[1..][..i - 1] + [v[i]];
        WrongSegment(segs, q, j, v[i], v[1..]);
      }
    }
  }

  /** Some block of the file does not come back: a size that is masked, or a block of the segment. */
  lemma SomeBad(segs: seq<HunkSegment>, written: bool, read: bool)
    requires 0 < |segs| && AllBuilt(segs) && Writes(segs) && CreateFile(segs).Some?
    requires exists i :: 0 <= i < |segs| && !Savable(segs[i], written, read)
    ensures !AllCome(CreateFile(segs).value, written, read)
  {
    hide Fits, Good, SegBlocks, AllBlocks;
    var blks := CreateFile(segs).value;
    var i :| 0 <= i < |segs| && !Savable(segs[i], written, read);
    if segs[i].seg.value.sizeLongs >= 0x4000_0000 {
      BigSize(segs, i);
      SomeBlocks(segs);
      assert blks[0] == Header([], |segs|, 0, |segs| - 1, Sizes(segs)) && |blks| > 1;
    } else {
      var l := SegBlocks(segs[i]);
      var j :| 0 <= j < |l| && !(Good(l[j]) && FlagsAgree(l[j], written, read));
      var k := Placed(segs, i, j);
      assert blks[k + 1] == SegBlocks(segs[i])[j];
    }
  }

  lemma SomeBlocks(segs: seq<HunkSegment>)
    requires Complete(segs) && segs != []
    ensures AllBlocks(segs) != []
  {
  }

  lemma BigSize(segs: seq<HunkSegment>, i: nat)
    requires Complete(segs) && i < |segs| && segs[i].seg.value.sizeLongs >= 0x4000_0000
    ensures !Good(Header([], |segs|, 0, |segs| - 1, Sizes(segs)))
  {
    assert Sizes(segs)[i] >= 0x4000_0000;
  }

  /** A block of a segment is in the file, and not at its end. */
  lemma {:induction false} Placed(segs: seq<HunkSegment>, i: nat, j: nat) returns (k: nat)
    requires Complete(segs) && i < |segs| && j < |SegBlocks(segs[i])|
    ensures k < |AllBlocks(segs)| - 1 && AllBlocks(segs)[k] == SegBlocks(segs[i])[j]
  {
    hide SegBlocks;
    var here := SegBlocks(segs[0]) + [End];
    assert AllBlocks(segs) == here + AllBlocks(segs[1..]);
    if i == 0 {
      k := j;
    } else {
      k := Placed(segs[1..], i - 1, j);
      k := k + |here|;
    }
  }

  /** A header that does not come back has a size that was masked, so its table is another one. */
  lemma HeaderBad(segs: seq<HunkSegment>, written: bool, read: bool)
    requires Complete(segs) && CreateFile(segs).Some? && AllFit(CreateFile(segs).value)
    requires !Comes(CreateFile(segs).value[0], |CreateFile(segs).value| == 1)
    ensures var file := FileOf(PutFile(CreateFile(segs).value, written), read);
      file.Ok? && file.value != [] && file.value[0].Header? ==> file.value[0].table != Sizes(segs)
  {
    hide AllBlocks, PutFile, FileOf;
    var blks := CreateFile(segs).value;
    assert exists i :: 0 <= i < |segs| && Sizes(segs)[i] >= 0x4000_0000;
    FirstTable(PutFile(blks, written), read);
  }

  lemma FirstTable(s: seq<byte>, read: bool)
    ensures FileOf(s, read).Ok? && FileOf(s, read).value != [] && FileOf(s, read).value[0].Header? ==>
      forall i :: 0 <= i < |FileOf(s, read).value[0].table| ==> FileOf(s, read).value[0].table[i] < 0x4000_0000
  {
    hide BodyOf;
    if s != [] && BlockOf(s, read).Ok? {
      var tag := HunkStream.LongOf(s);
      TableMasked(IdIn(tag.value.0 % 0x1_0000, read), tag.value.1);
    }
  }
}
