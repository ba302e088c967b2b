/** `HunkLoadSegFile`: segments to blocks and back, and the round trip through a file. */
module HunkLoadSeg {
  import opened Bytes
  import opened HunkBlocks

  /** `HunkSegment`: a code or data block with its relocation and symbol blocks. */
  datatype HunkSegment = HunkSegment(seg: Option<Block>, relocs: Option<seq<Block>>, symbols: Option<Block>)

  // ----- setting a segment up -----

  /** `setup_code`, `setup_data`: padding bytes with a text string fails, so only whole longs pass. */
  function SetupSegment(id: nat, data: seq<byte>): Option<Block> {
    if |data| % 4 != 0 then None else Some(Segment(id, data, |data| / 4))
  }

  predicate AllShort(offs: seq<nat>, n: nat)
    requires n <= |offs|
  {
    n > 0 ==> AllShort(offs, n - 1) && offs[n - 1] <= 65535
  }

  predicate RelocsShort(rs: seq<Rel>, n: nat)
    requires n <= |rs|
  {
    n > 0 ==> RelocsShort(rs, n - 1) && AllShort(rs[n - 1].offs, |rs[n - 1].offs|)
  }

  /** `setup_relocs`. */
  function SetupRelocs(rs: seq<Rel>, forceLong: bool): seq<Block> {
    if !forceLong && RelocsShort(rs, |rs|) then [RelocWord(rs)] else [RelocLong(rs)]
  }

  /** `_are_relocs_short`. */
  method AreRelocsShort(rs: seq<Rel>) returns (ok: bool)
    ensures ok == RelocsShort(rs, |rs|)
    ensures ok <==> forall i, j :: 0 <= i < |rs| && 0 <= j < |rs[i].offs| ==> rs[i].offs[j] < 0x1_0000
  {
    ShortExact(rs, |rs|);
    for i := 0 to |rs|
      invariant RelocsShort(rs, i)
    {
      var offs := rs[i].offs;
      for j := 0 to |offs|
        invariant AllShort(offs, j)
      {
        if offs[j] > 65535 {
          NotShort(offs, j, |offs|);
          NoneShort(rs, i, |rs|);
          return false;
        }
      }
    }
    ok := true;
  }

  lemma {:induction false} ShortExact(rs: seq<Rel>, n: nat)
    requires n <= |rs|
    ensures RelocsShort(rs, n) <==> forall i, j :: 0 <= i < n && 0 <= j < |rs[i].offs| ==> rs[i].offs[j] < 0x1_0000
  {
    if n > 0 {
      ShortExact(rs, n - 1);
      OffsShort(rs[n - 1].offs, |rs[n - 1].offs|);
    }
  }

  lemma {:induction false} OffsShort(offs: seq<nat>, n: nat)
    requires n <= |offs|
    ensures AllShort(offs, n) <==> forall j :: 0 <= j < n ==> offs[j] < 0x1_0000
  {
    if n > 0 { OffsShort(offs, n - 1); }
  }

  lemma {:induction false} NotShort(offs: seq<nat>, j: nat, n: nat)
    requires j < n <= |offs| && offs[j] > 65535
    ensures !AllShort(offs, n)
  {
    if j < n - 1 { NotShort(offs, j, n - 1); }
  }

  lemma {:induction false} NoneShort(rs: seq<Rel>, i: nat, n: nat)
    requires i < n <= |rs| && !AllShort(rs[i].offs, |rs[i].offs|)
    ensures !RelocsShort(rs, n)
  {
    if i < n - 1 { NoneShort(rs, i, n - 1); }
  }

  // ----- segments to blocks -----

  function OrNone<T>(o: Option<seq<T>>): seq<T> { if o.Some? then o.value else [] }

  /** `HunkSegment.create`: segment block, relocations, symbols. */
  function SegBlocks(s: HunkSegment): seq<Block>
    requires s.seg.Some?
  {
    [s.seg.value] + OrNone(s.relocs) + if s.symbols.Some? then [s.symbols.value] else []
  }

  predicate Complete(segs: seq<HunkSegment>) {
    forall i :: 0 <= i < |segs| ==> segs[i].seg.Some? && segs[i].seg.value.Segment?
  }

  function AllBlocks(segs: seq<HunkSegment>): seq<Block>
    requires Complete(segs)
  {
    if segs == [] then [] else SegBlocks(segs[0]) + [End] + AllBlocks(segs[1..])
  }

  function Sizes(segs: seq<HunkSegment>): (r: seq<nat>)
    requires Complete(segs)
    ensures |r| == |segs| && forall i :: 0 <= i < |segs| ==> r[i] == segs[i].seg.value.sizeLongs
  {
    seq(|segs|, i requires 0 <= i < |segs| => segs[i].seg.value.sizeLongs)
  }

  /** `create_block_file`; a segment without a segment block is an error, and the header refuses an empty list. */
  function CreateFile(segs: seq<HunkSegment>): Option<seq<Block>> {
    if segs == [] || !Complete(segs) then None
    else Some([Header([], |segs|, 0, |segs| - 1, Sizes(segs))] + AllBlocks(segs))
  }

  /** What is created block by block: a header for hunk 0 up to the last with the size of every segment, and in
      front of the blocks of the other segments those of the first: its segment block, its relocations, its
      symbols and an END. */
  lemma CreatedExact(segs: seq<HunkSegment>)
    requires CreateFile(segs).Some?
    ensures var h := CreateFile(segs).value[0];
      && h.Header? && h.names == [] && h.tableSize == |segs| && h.first == 0 && h.last == |segs| - 1
      && |h.table| == |segs| && forall i :: 0 <= i < |segs| ==>
        segs[i].seg.Some? && segs[i].seg.value.Segment? && h.table[i] == segs[i].seg.value.sizeLongs
    ensures var (s, all) := (segs[0], CreateFile(segs).value[1..]);
      var own := [s.seg.value] + s.relocs.UnwrapOr([]) + (if s.symbols.Some? then [s.symbols.value] else []) + [End];
      all == own + if |segs| == 1 then [] else CreateFile(segs[1..]).UnwrapOr([End])[1..]
  {
    hide SegBlocks;
    var more := segs[1..];
    assert CreateFile(segs).value[1..] == AllBlocks(segs);
    if more != [] {
      assert Complete(more);
      assert CreateFile(more).value[1..] == AllBlocks(more);
    }
    OwnBlocks(segs[0]);
  }

  lemma OwnBlocks(s: HunkSegment)
    requires s.seg.Some?
    ensures SegBlocks(s) == [s.seg.value] + s.relocs.UnwrapOr([])
      + if s.symbols.Some? then [s.symbols.value] else []
  {
  }

  method CreateBlockFile(segs: seq<HunkSegment>) returns (blks: Option<seq<Block>>)
    ensures blks == CreateFile(segs)
    ensures blks.Some? <==>
      segs != [] && forall i :: 0 <= i < |segs| ==> segs[i].seg.Some? && segs[i].seg.value.Segment?
  {
    hide AllBlocks, SegBlocks;
    var r: seq<Block> := [];
    var sizes: seq<nat> := [];
    assert segs[0..] == segs;
    for i := 0 to |segs|
      invariant Complete(segs[..i]) && (Complete(segs) ==> r + AllBlocks(segs[i..]) == AllBlocks(segs))
      invariant |sizes| == i && forall k :: 0 <= k < i ==> sizes[k] == segs[k].seg.value.sizeLongs
    {
      // no segment block
      if segs[i].seg.None? || !segs[i].seg.value.Segment? { return None; }
      if Complete(segs) { NextBlocks(segs, i, r); }
      r := r + SegBlocks(segs[i]);
      sizes := sizes + [segs[i].seg.value.sizeLongs];
      // add HUNK_END
      r := r + [End];
    }
    NoBlocks(r);
    assert segs[..|segs|] == segs && segs[|segs|..] == [];
    // finally setup header
    if |sizes| == 0 { return None; }
    assert sizes == Sizes(segs);
    blks := Some([Header([], |sizes|, 0, |sizes| - 1, sizes)] + r);
  }

  lemma NextBlocks(segs: seq<HunkSegment>, i: nat, r: seq<Block>)
    requires Complete(segs) && i < |segs|
    ensures r + AllBlocks(segs[i..]) == r + SegBlocks(segs[i]) + [End] + AllBlocks(segs[i + 1..])
  {
    hide SegBlocks;
    assert segs[i..][0] == segs[i] && segs[i..][1..] == segs[i + 1..];
  }

  lemma NoBlocks(r: seq<Block>)
    ensures r + AllBlocks([]) == r
  {
  }

  // ----- blocks to segments -----

  predicate Begins(b: Block) { b.Segment? }

  predicate Extra(b: Block) { b.RelocLong? || b.RelocWord? || b.Symbols? }

  datatype Split = Split(lists: seq<seq<Block>>, open: bool)

  /** First round: lists separated by END blocks. */
  function Round(st: Split, blks: seq<Block>): Option<Split>
    requires st.open ==> st.lists != []
    decreases blks
  {
    if blks == [] then Some(st)
    else if blks[0].End? then Round(Split(st.lists, false), blks[1..])
    else if !Begins(blks[0]) && !Extra(blks[0]) then None
    else Round(Added(st, blks[0]), blks[1..])
  }

  function Added(st: Split, b: Block): (r: Split)
    requires st.open ==> st.lists != []
    ensures r.open && r.lists != []
  {
    if !st.open then Split(st.lists + [[b]], true)
    else Split(st.lists[|st.lists| - 1 := st.lists[|st.lists| - 1] + [b]], true)
  }

  function Segments(l: seq<Block>): nat {
    if l == [] then 0 else (if Begins(l[0]) then 1 else 0) + Segments(l[1..])
  }

  /** Second round: a list with several segment blocks is cut in front of each. */
  function Cut(cur: Option<seq<Block>>, l: seq<Block>): Option<seq<seq<Block>>>
    decreases l
  {
    if l == [] then Some(if cur.Some? then [cur.value] else [])
    else if Begins(l[0]) then
      var more := Cut(Some([l[0]]), l[1..]);
      if more.None? then None else Some((if cur.Some? then [cur.value] else []) + more.value)
    else if cur.Some? then Cut(Some(cur.value + [l[0]]), l[1..])
    else None
  }

  function Second(lists: seq<seq<Block>>): Option<seq<seq<Block>>> {
    if lists == [] then Some([]) else
      var l, more := lists[0], Second(lists[1..]);
      var here := if Segments(l) == 1 then Some([l]) else if Segments(l) > 1 then Cut(None, l) else Some([]);
      if here.None? || more.None? then None else Some(here.value + more.value)
  }

  /** `HunkSegment.parse` after the blocks seen so far; two symbol blocks are an error. */
  function ParseSeg(s: HunkSegment, l: seq<Block>): Option<HunkSegment>
    decreases l
  {
    if l == [] then Some(s) else
      var b := l[0];
      if Begins(b) then ParseSeg(s.(seg := Some(b)), l[1..])
      else if b.Symbols? then if s.symbols.Some? then None else ParseSeg(s.(symbols := Some(b)), l[1..])
      else if b.RelocLong? || b.RelocWord? then ParseSeg(s.(relocs := Some(OrNone(s.relocs) + [b])), l[1..])
      else None
  }

  const NO_SEGMENT := HunkSegment(None, None, None)

  function ParseAll(lists: seq<seq<Block>>): Option<seq<HunkSegment>> {
    if lists == [] then Some([]) else
      var s, more := ParseSeg(NO_SEGMENT, lists[0]), ParseAll(lists[1..]);
      if s.None? || more.None? then None else Some([s.value] + more.value)
  }

  /** `parse_block_file`: the segments and the sizes the header gives them. */
  function ParseFile(blks: seq<Block>): Option<(seq<HunkSegment>, seq<nat>)> {
    if blks == [] || !blks[0].Header? then None else
      var first := Round(Split([], false), blks[1..]);
      if first.None? then None else
        var second := Second(first.value.lists);
        if second.None? || |blks[0].table| != |second.value| then None else
          var segs := ParseAll(second.value);
          if segs.None? then None else Some((segs.value, blks[0].table))
  }

  /** First round of `parse_block_file`. */
  method SplitAtEnds(blks: seq<Block>) returns (r: Option<Split>)
    ensures r == Round(Split([], false), blks)
  {
    var first: seq<seq<Block>> := [];
    var open := false;
    assert blks[0..] == blks;
    for i := 0 to |blks|
      invariant open ==> first != []
      invariant Round(Split([], false), blks) == Round(Split(first, open), blks[i..])
    {
      var blk := blks[i];
      ghost var st := Split(first, open);
      assert blks[i..][0] == blk && blks[i..][1..] == blks[i + 1..];
      if blk.End? {
        open := false;
      } else {
        if !Begins(blk) && !Extra(blk) { return None; }
        if !open { first := first + [[]]; }
        first := first[|first| - 1 := first[|first| - 1] + [blk]];
        assert [] + [blk] == [blk] && (open || first == st.lists + [[blk]]);
        assert Split(first, true) == Added(st, blk);
        open := true;
      }
    }
    r := Some(Split(first, open));
  }

  function Join<T>(a: seq<T>, o: Option<seq<T>>): Option<seq<T>> { if o.None? then None else Some(a + o.value) }

  lemma JoinJoin<T>(a: seq<T>, b: seq<T>, o: Option<seq<T>>)
    ensures Join(a, Join(b, o)) == Join(a + b, o)
  {
    if o.Some? { assert a + (b + o.value) == a + b + o.value; }
  }

  method CountSegments(l: seq<Block>) returns (n: nat)
    ensures n == Segments(l)
  {
    var posSeg: seq<nat> := [];
    assert l[0..] == l;
    for off := 0 to |l|
      invariant |posSeg| + Segments(l[off..]) == Segments(l)
    {
      assert l[off..][0] == l[off] && l[off..][1..] == l[off + 1..];
      if Begins(l[off]) { posSeg := posSeg + [off]; }
    }
    n := |posSeg|;
  }

  /** The split of a list that lacks END blocks. */
  method SplitList(l: seq<Block>) returns (r: Option<seq<seq<Block>>>)
    ensures r == Cut(None, l)
  {
    var done: seq<seq<Block>> := [];
    var cur: Option<seq<Block>> := None;
    assert l[0..] == l;
    JoinNone(Cut(None, l));
    for i := 0 to |l|
      invariant Cut(None, l) == Join(done, Cut(cur, l[i..]))
    {
      var blk := l[i];
      assert l[i..][0] == blk && l[i..][1..] == l[i + 1..];
      if Begins(blk) {
        var prev := if cur.Some? then [cur.value] else [];
        JoinJoin(done, prev, Cut(Some([blk]), l[i + 1..]));
        done := done + prev;
        cur := Some([blk]);
      } else if cur.Some? {
        cur := Some(cur.value + [blk]);
      } else {
        return None;
      }
    }
    r := Some(done + if cur.Some? then [cur.value] else []);
  }

  lemma JoinNone<T>(o: Option<seq<T>>)
    ensures Join([], o) == o
  {
    if o.Some? { assert [] + o.value == o.value; }
  }

  /** Second round of `parse_block_file`. */
  method SplitBroken(first: seq<seq<Block>>) returns (second: Option<seq<seq<Block>>>)
    ensures second == Second(first)
  {
    var r: seq<seq<Block>> := [];
    assert first[0..] == first;
    JoinNone(Second(first));
    for i := 0 to |first|
      invariant Second(first) == Join(r, Second(first[i..]))
    {
      var l := first[i];
      assert first[i..][0] == l && first[i..][1..] == first[i + 1..];
      var n := CountSegments(l);
      var here: seq<seq<Block>> := [];
      if n == 1 {
        // list is ok
        here := [l];
      } else if n > 1 {
        // list needs split
        var cut := SplitList(l);
        if cut.None? { return None; }
        here := cut.value;
      }
      JoinJoin(r, here, Second(first[i + 1..]));
      r := r + here;
    }
    assert r + [] == r;
    second := Some(r);
  }

  /** `HunkSegment.parse`. */
  method Parse(l: seq<Block>) returns (r: Option<HunkSegment>)
    ensures r == ParseSeg(NO_SEGMENT, l)
  {
    var s := NO_SEGMENT;
    assert l[0..] == l;
    for i := 0 to |l|
      invariant ParseSeg(NO_SEGMENT, l) == ParseSeg(s, l[i..])
    {
      var blk := l[i];
      assert l[i..][0] == blk && l[i..][1..] == l[i + 1..];
      if Begins(blk) {
        s := s.(seg := Some(blk));
      } else if blk.Symbols? {
        if s.symbols.Some? { return None; }
        s := s.(symbols := Some(blk));
      } else if blk.RelocLong? || blk.RelocWord? {
        s := s.(relocs := Some((if s.relocs.None? then [] else s.relocs.value) + [blk]));
      } else {
        return None;
      }
    }
    r := Some(s);
  }

  /** `parse_block_file`: two rounds of splitting, the check against the header, then each segment. */
  method ParseBlockFile(blks: seq<Block>) returns (r: Option<(seq<HunkSegment>, seq<nat>)>)
    ensures r == ParseFile(blks)
  {
    hide Round, Second, ParseSeg;
    if |blks| == 0 || !blks[0].Header? { return None; }
    var first := SplitAtEnds(blks[1..]);
    if first.None? { return None; }
    var second := SplitBroken(first.value.lists);
    // check size of hunk table
    if second.None? || |blks[0].table| != |second.value| { return None; }
    var lists := second.value;
    var segs: seq<HunkSegment> := [];
    assert lists[0..] == lists;
    JoinNone(ParseAll(lists));
    for i := 0 to |lists|
      invariant ParseAll(lists) == Join(segs, ParseAll(lists[i..]))
    {
      assert lists[i..][0] == lists[i] && lists[i..][1..] == lists[i + 1..];
      var s := Parse(lists[i]);
      if s.None? { return None; }
      JoinJoin(segs, [s.value], ParseAll(lists[i + 1..]));
      segs := segs + [s.value];
    }
    assert segs + [] == segs;
    r := Some((segs, blks[0].table));
  }

  // ----- create, then parse -----

  /** What `setup_*` builds: relocation blocks where there are relocations, a symbol block where there are
      symbols. */
  ghost predicate BuiltSegment(s: HunkSegment) {
    && s.seg.Some? && s.seg.value.Segment?
    && (s.relocs.Some? ==> s.relocs.value != [] && forall i :: 0 <= i < |s.relocs.value| ==>
      s.relocs.value[i].RelocLong? || s.relocs.value[i].RelocWord?)
    && (s.symbols.Some? ==> s.symbols.value.Symbols?)
  }

  ghost predicate ExtrasOnly(l: seq<Block>) { forall i :: 0 <= i < |l| ==> Extra(l[i]) }

  lemma {:induction false} RoundExtras(lists: seq<seq<Block>>, cur: seq<Block>, l: seq<Block>, more: seq<Block>)
    requires ExtrasOnly(l)
    ensures Round(Split(lists + [cur], true), l + more) == Round(Split(lists + [cur + l], true), more)
    decreases |l|
  {
    if l == [] {
      assert cur + l == cur && l + more == more;
    } else {
      assert (l + more)[0] == l[0] && (l + more)[1..] == l[1..] + more;
      assert Added(Split(lists + [cur], true), l[0]) == Split(lists + [cur + [l[0]]], true);
      RoundExtras(lists, cur + [l[0]], l[1..], more);
      assert cur + [l[0]] + l[1..] == cur + l;
    }
  }

  /** The blocks of a segment and its END make one list. */
  lemma RoundSegment(lists: seq<seq<Block>>, s: HunkSegment, more: seq<Block>)
    requires BuiltSegment(s)
    ensures Round(Split(lists, false), SegBlocks(s) + [End] + more) == Round(Split(lists + [SegBlocks(s)], false), more)
  {
    var b, l := s.seg.value, SegBlocks(s)[1..];
    assert SegBlocks(s) == [b] + l && ExtrasOnly(l);
    var all := SegBlocks(s) + [End] + more;
    assert all[0] == b && all[1..] == l + ([End] + more);
    assert Added(Split(lists, false), b) == Split(lists + [[b]], true);
    RoundExtras(lists, [b], l, [End] + more);
    assert [b] + l == SegBlocks(s);
    assert ([End] + more)[0] == End && ([End] + more)[1..] == more;
  }

  ghost predicate AllBuilt(segs: seq<HunkSegment>) { forall i :: 0 <= i < |segs| ==> BuiltSegment(segs[i]) }

  function Lists(segs: seq<HunkSegment>): (r: seq<seq<Block>>)
    requires Complete(segs)
    ensures |r| == |segs|
  {
    if segs == [] then [] else [SegBlocks(segs[0])] + Lists(segs[1..])
  }

  lemma {:induction false} RoundAll(lists: seq<seq<Block>>, segs: seq<HunkSegment>)
    requires AllBuilt(segs) && Complete(segs)
    ensures Round(Split(lists, false), AllBlocks(segs)) == Some(Split(lists + Lists(segs), false))
    decreases |segs|
  {
    if segs == [] {
      assert lists + [] == lists;
    } else {
      assert AllBlocks(segs) == SegBlocks(segs[0]) + [End] + AllBlocks(segs[1..]);
      RoundSegment(lists, segs[0], AllBlocks(segs[1..]));
      RoundAll(lists + [SegBlocks(segs[0])], segs[1..]);
      assert lists + [SegBlocks(segs[0])] + Lists(segs[1..]) == lists + Lists(segs);
    }
  }

  lemma {:induction false} NoSegments(l: seq<Block>)
    requires ExtrasOnly(l)
    ensures Segments(l) == 0
  {
    if l != [] { NoSegments(l[1..]); }
  }

  lemma OneSegment(s: HunkSegment)
    requires BuiltSegment(s)
    ensures Segments(SegBlocks(s)) == 1
  {
    var l := SegBlocks(s)[1..];
    assert ExtrasOnly(l);
    NoSegments(l);
  }

  lemma {:induction false} SecondAll(segs: seq<HunkSegment>)
    requires AllBuilt(segs) && Complete(segs)
    ensures Second(Lists(segs)) == Some(Lists(segs))
  {
    if segs != [] {
      OneSegment(segs[0]);
      assert Lists(segs)[0] == SegBlocks(segs[0]) && Lists(segs)[1..] == Lists(segs[1..]);
      SecondAll(segs[1..]);
    }
  }

  ghost predicate RelocsOnly(l: seq<Block>) { forall i :: 0 <= i < |l| ==> l[i].RelocLong? || l[i].RelocWord? }

  lemma {:induction false} ParseRelocs(s: HunkSegment, l: seq<Block>, more: seq<Block>)
    requires RelocsOnly(l)
    ensures ParseSeg(s, l + more) == ParseSeg(if l == [] then s else s.(relocs := Some(OrNone(s.relocs) + l)), more)
    decreases |l|
  {
    if l == [] {
      assert l + more == more;
    } else {
      assert (l + more)[0] == l[0] && (l + more)[1..] == l[1..] + more;
      ParseRelocs(s.(relocs := Some(OrNone(s.relocs) + [l[0]])), l[1..], more);
      assert OrNone(s.relocs) + [l[0]] + l[1..] == OrNone(s.relocs) + l;
      if l[1..] == [] { assert l == [l[0]]; }
    }
  }

  /** Parsing the blocks of a segment gives the segment. */
  lemma ParseCreated(s: HunkSegment)
    requires BuiltSegment(s)
    ensures ParseSeg(NO_SEGMENT, SegBlocks(s)) == Some(s)
  {
    var relocs := OrNone(s.relocs);
    var syms := if s.symbols.Some? then [s.symbols.value] else [];
    assert SegBlocks(s)[0] == s.seg.value && SegBlocks(s)[1..] == relocs + syms;
    var t := HunkSegment(s.seg, None, None);
    ParseRelocs(t, relocs, syms);
    assert [] + relocs == relocs;
    var u := if relocs == [] then t else t.(relocs := Some(relocs));
    assert u.relocs == s.relocs;
    if s.symbols.Some? { assert syms[1..] == []; }
  }

  lemma {:induction false} ParseAllCreated(segs: seq<HunkSegment>)
    requires AllBuilt(segs) && Complete(segs)
    ensures ParseAll(Lists(segs)) == Some(segs)
  {
    if segs != [] {
      assert Lists(segs)[0] == SegBlocks(segs[0]) && Lists(segs)[1..] == Lists(segs[1..]);
      ParseCreated(segs[0]);
      ParseAllCreated(segs[1..]);
      assert [segs[0]] + segs[1..] == segs;
    }
  }

  /** Blocks made from segments parse into the same segments with their own sizes. */
  lemma CreateThenParse(segs: seq<HunkSegment>)
    requires AllBuilt(segs) && segs != []
    ensures Complete(segs) && ParseFile(CreateFile(segs).value) == Some((segs, Sizes(segs)))
  {
    var blks := CreateFile(segs).value;
    assert blks[1..] == AllBlocks(segs);
    RoundAll([], segs);
    assert [] + Lists(segs) == Lists(segs);
    SecondAll(segs);
    ParseAllCreated(segs);
  }

  // ----- through a file -----

  /** Values that fit their fields and tables that come back: no empty offset list, no empty name or NUL in
      one, data of the announced size below 2^30 longs. */
  ghost predicate Savable(s: HunkSegment, written: bool, read: bool) {
    && BuiltSegment(s) && s.seg.value.sizeLongs < 0x4000_0000
    && forall i :: 0 <= i < |SegBlocks(s)| ==>
      Fits(SegBlocks(s)[i]) && Good(SegBlocks(s)[i]) && FlagsAgree(SegBlocks(s)[i], written, read)
  }

  ghost predicate AllSavable(bs: seq<Block>, written: bool, read: bool) {
    forall i :: 0 <= i < |bs| ==> Fits(bs[i]) && Good(bs[i]) && FlagsAgree(bs[i], written, read)
  }

  lemma {:induction false} BlocksSavable(segs: seq<HunkSegment>, written: bool, read: bool)
    requires Complete(segs) && forall i :: 0 <= i < |segs| ==> Savable(segs[i], written, read)
    ensures AllSavable(AllBlocks(segs), written, read)
  {
    hide Fits, Good;
    if segs != [] {
      BlocksSavable(segs[1..], written, read);
      assert Savable(segs[0], written, read);
      EndSavable(written, read);
    }
  }

  lemma EndSavable(written: bool, read: bool)
    ensures Fits(End) && Good(End) && FlagsAgree(End, written, read)
  {
  }

  lemma HeaderSavable(segs: seq<HunkSegment>, written: bool, read: bool)
    requires Complete(segs) && 0 < |segs| < 0x1_0000_0000
    requires forall i :: 0 <= i < |segs| ==> segs[i].seg.value.sizeLongs < 0x4000_0000
    ensures var h := Header([], |segs|, 0, |segs| - 1, Sizes(segs)); Fits(h) && Good(h) && FlagsAgree(h, written, read)
  {
  }

  /** A segment set up from its data, relocations and symbols. */
  function SetUp(id: nat, data: seq<byte>, relocs: Option<seq<Rel>>, forceLong: bool,
          symbols: Option<seq<Sym>>): HunkSegment
  {
    HunkSegment(SetupSegment(id, data),
      if relocs.Some? then Some(SetupRelocs(relocs.value, forceLong)) else None,
      if symbols.Some? then Some(Symbols(symbols.value)) else None)
  }

  lemma {:induction false} AllShortAt(offs: seq<nat>, n: nat, k: nat)
    requires k < n <= |offs| && AllShort(offs, n)
    ensures offs[k] < 0x1_0000
  {
    if k < n - 1 { AllShortAt(offs, n - 1, k); }
  }

  ghost predicate SmallRels(rs: seq<Rel>) {
    forall i :: 0 <= i < |rs| ==> rs[i].hunk < 0x1_0000 && |rs[i].offs| < 0x1_0000
  }

  /** Relocations found short go into words as they are exactly when the hunk numbers and counts do too,
      which the code does not look at. */
  lemma {:induction false} ShortFits(rs: seq<Rel>, n: nat)
    requires n <= |rs| && RelocsShort(rs, n)
    ensures (forall i :: 0 <= i < n ==> WordRelFits(rs[i])) <==> SmallRels(rs[..n])
  {
    if n > 0 {
      ShortFits(rs, n - 1);
      var offs := rs[n - 1].offs;
      forall k | 0 <= k < |offs| ensures offs[k] < 0x1_0000 { AllShortAt(offs, |offs|, k); }
      assert SmallRels(rs[..n]) <==>
        SmallRels(rs[..n - 1]) && rs[n - 1].hunk < 0x1_0000 && |offs| < 0x1_0000 by {
        hide WordRelFits, RelocsShort;
        assert rs[..n] == rs[..n - 1] + [rs[n - 1]];
      }
    }
  }

  /** `setup_relocs` leaves something that can be written and read back. */
  ghost predicate RelocsSavable(rs: seq<Rel>, forceLong: bool, written: bool, read: bool) {
    NoEmpty(rs) && if !forceLong && RelocsShort(rs, |rs|) then SmallRels(rs) && (written ==> read) else LongRelsFit(rs)
  }

  /** What `setup_*` makes can be saved exactly when the data are whole longs, no offset list is empty, the
      symbol names are good and the numbers fit the long form, or the words where the code takes the short
      form. */
  lemma SetUpSavable(id: nat, data: seq<byte>, relocs: Option<seq<Rel>>, forceLong: bool, symbols: Option<seq<Sym>>,
                     written: bool, read: bool)
    requires id == HUNK_CODE || id == HUNK_DATA
    ensures Savable(SetUp(id, data, relocs, forceLong, symbols), written, read) <==>
      && |data| % 4 == 0 && |data| < 0x1_0000_0000
      && (relocs.Some? ==> RelocsSavable(relocs.value, forceLong, written, read))
      && (symbols.Some? ==> GoodNames(symbols.value) && SymsFit(symbols.value))
  {
    hide NoEmpty, LongRelsFit, GoodNames, SymsFit, AllShort, RelocsShort, SmallRels;
    var s := SetUp(id, data, relocs, forceLong, symbols);
    if |data| % 4 == 0 {
      assert |data| == 4 * (|data| / 4);
      var seg, n := s.seg.value, |OrNone(s.relocs)|;
      assert SegBlocks(s)[0] == seg;
      assert BuiltSegment(s);
      assert Fits(seg) && Good(seg) && FlagsAgree(seg, written, read) <==> |data| / 4 < 0x1_0000_0000;
      if relocs.Some? {
        assert SegBlocks(s)[1] == s.relocs.value[0];
        RelocsSavableIff(relocs.value, forceLong, written, read);
      }
      if symbols.Some? { assert SegBlocks(s)[1 + n] == Symbols(symbols.value); }
    }
  }

  lemma RelocsSavableIff(rs: seq<Rel>, forceLong: bool, written: bool, read: bool)
    ensures var b := SetupRelocs(rs, forceLong)[0];
      Fits(b) && Good(b) && FlagsAgree(b, written, read) <==> RelocsSavable(rs, forceLong, written, read)
  {
    hide NoEmpty, LongRelsFit, AllShort, RelocsShort, SmallRels;
    if !forceLong && RelocsShort(rs, |rs|) {
      ShortFits(rs, |rs|);
      assert rs[..|rs|] == rs;
    }
  }

  /** 65536 offsets for one hunk, or a hunk number of 65536: the short form is chosen and cannot be written,
      the long form could. */
  lemma ShortYetTooBig()
    ensures var many, far := [Rel(0, seq(0x1_0000, i => i))], [Rel(0x1_0000, [0])];
      && SetupRelocs(many, false) == [RelocWord(many)] && !Fits(RelocWord(many)) && Fits(RelocLong(many))
      && SetupRelocs(far, false) == [RelocWord(far)] && !Fits(RelocWord(far)) && Fits(RelocLong(far))
  {
    var offs := seq(0x1_0000, i => i);
    var many, far := [Rel(0, offs)], [Rel(0x1_0000, [0])];
    AllShortIf(offs, |offs|);
    assert RelocsShort(many, 1) && RelocsShort(far, 1);
    assert !WordRelFits(many[0]) && !WordRelFits(far[0]);
  }

  lemma {:induction false} AllShortIf(offs: seq<nat>, n: nat)
    requires n <= |offs| && forall k :: 0 <= k < n ==> offs[k] <= 65535
    ensures AllShort(offs, n)
  {
    if n > 0 { AllShortIf(offs, n - 1); }
  }

  /** Saving and loading is the identity on segments: create the blocks, write them, read the file, parse
      the blocks. */
  lemma SaveThenLoad(segs: seq<HunkSegment>, written: bool, read: bool)
    requires 0 < |segs| < 0x1_0000_0000 && forall i :: 0 <= i < |segs| ==> Savable(segs[i], written, read)
    ensures Complete(segs) && CreateFile(segs).Some?
    ensures forall i :: 0 <= i < |CreateFile(segs).value| ==> Fits(CreateFile(segs).value[i])
    ensures var file := FileOf(PutFile(CreateFile(segs).value, written), read);
      file.Ok? && file.rest == [] && ParseFile(file.value) == Some((segs, Sizes(segs)))
  {
    hide Fits, Good, FileOf, PutFile, ParseFile, SegBlocks;
    forall i | 0 <= i < |segs| ensures BuiltSegment(segs[i]) && segs[i].seg.value.sizeLongs < 0x4000_0000 {
      assert Savable(segs[i], written, read);
    }
    BlocksSavable(segs, written, read);
    HeaderSavable(segs, written, read);
    var blks := CreateFile(segs).value;
    assert AllSavable(blks, written, read);
    assert AllCome(blks, written, read);
    FileBack(blks, written, read);
    CreateThenParse(segs);
  }
}
