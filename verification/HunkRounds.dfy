/** What the parser of load files makes of any list of blocks, END blocks missing or not: where lists are split and
    cut, and what a list of blocks says about its segment. */
module HunkRounds {
  import opened Bytes
  import opened HunkBlocks
  import opened HunkLoadSeg

  // ----- first round: END blocks separate lists -----

  lemma {:induction false} RunOfBlocks(st: Split, a: seq<Block>, more: seq<Block>)
    requires st.open && st.lists != [] && forall i :: 0 <= i < |a| ==> !a[i].End?
    ensures (exists i :: 0 <= i < |a| && a[i].Header?) ==> Round(st, a + more) == None
    ensures (forall i :: 0 <= i < |a| ==> !a[i].Header?) ==>
      var n := |st.lists| - 1; Round(st, a + more) == Round(Split(st.lists[n := st.lists[n] + a], true), more)
    decreases |a|
  {
    var n := |st.lists| - 1;
    var last := st.lists[n];
    if a == [] {
      assert a + more == more && last + a == last && st.lists[n := last] == st.lists;
    } else {
      assert (a + more)[0] == a[0] && (a + more)[1..] == a[1..] + more;
      if !a[0].Header? {
        var next := Added(st, a[0]);
        assert forall i :: 0 <= i < |a| - 1 ==> a[i + 1] == a[1..][i];
        RunOfBlocks(next, a[1..], more);
        assert next.lists[n] + a[1..] == last + a;
        assert next.lists[n := last + a] == st.lists[n := last + a];
      }
    }
  }

  /** The blocks up to the first END make one list, or none if there are none; a header among them is refused. */
  lemma RoundExact(lists: seq<seq<Block>>, a: seq<Block>, more: seq<Block>)
    requires forall i :: 0 <= i < |a| ==> !a[i].End?
    ensures (exists i :: 0 <= i < |a| && a[i].Header?) ==>
      Round(Split(lists, false), a) == None == Round(Split(lists, false), a + [End] + more)
    ensures (forall i :: 0 <= i < |a| ==> !a[i].Header?) ==>
      var with := if a == [] then lists else lists + [a];
      && Round(Split(lists, false), a) == Some(Split(with, a != []))
      && Round(Split(lists, false), a + [End] + more) == Round(Split(with, false), more)
  {
    var rest := [End] + more;
    assert a + [End] + more == a + rest && rest[0].End? && rest[1..] == more && a + [] == a;
    if a != [] && !a[0].Header? {
      var st := Added(Split(lists, false), a[0]);
      var n := |lists|;
      assert (a + rest)[0] == a[0] && (a + rest)[1..] == a[1..] + rest && a[1..] + [] == a[1..];
      assert forall i :: 0 <= i < |a| - 1 ==> a[i + 1] == a[1..][i];
      RunOfBlocks(st, a[1..], []);
      RunOfBlocks(st, a[1..], rest);
      assert st.lists[n := st.lists[n] + a[1..]] == lists + [a] by { assert [a[0]] + a[1..] == a; }
    }
  }

  // ----- second round: lists with several segments -----

  lemma {:induction false} SegmentsExact(l: seq<Block>)
    ensures Segments(l) == 0 <==> forall i :: 0 <= i < |l| ==> !l[i].Segment?
    ensures Segments(l) > 1 <==> exists i, j :: 0 <= i < j < |l| && l[i].Segment? && l[j].Segment?
  {
    if l != [] {
      var t := l[1..];
      SegmentsExact(t);
      assert forall i :: 0 < i < |l| ==> l[i] == t[i - 1];
      if i, j :| 0 <= i < j < |t| && t[i].Segment? && t[j].Segment? { assert l[i + 1].Segment? && l[j + 1].Segment?; }
      if i :| 0 <= i < |t| && t[i].Segment? { assert l[i + 1].Segment?; }
    }
  }

  /** A segment block begins a list that goes on to the next one. */
  lemma CutExact(s: Block, a: seq<Block>, more: seq<Block>)
    requires s.Segment? && (forall i :: 0 <= i < |a| ==> !a[i].Segment?) && (more != [] ==> more[0].Segment?)
    ensures Cut(None, [s] + a + more) == Join([[s] + a], Cut(None, more))
  {
    hide Join, Cut;
    var l := [s] + a + more;
    CutBegins(l);
    assert l[0] == s && l[1..] == a + more;
    CutRun([s], a, more);
  }

  lemma CutBegins(l: seq<Block>)
    ensures l == [] ==> Cut(None, l) == Some([])
    ensures l != [] && l[0].Segment? ==> Cut(None, l) == Cut(Some([l[0]]), l[1..])
  {
    if l != [] {
      var cut := Cut(Some([l[0]]), l[1..]);
      assert cut.Some? ==> [] + cut.value == cut.value;
    }
  }

  lemma {:induction false} CutRun(cur: seq<Block>, a: seq<Block>, more: seq<Block>)
    requires (forall i :: 0 <= i < |a| ==> !a[i].Segment?) && (more != [] ==> more[0].Segment?)
    ensures Cut(Some(cur), a + more) == Join([cur + a], Cut(None, more))
    decreases |a|
  {
    if a == [] {
      assert a + more == more && cur + a == cur;
      if more != [] {
        var cut := Cut(Some([more[0]]), more[1..]);
        assert cut.Some? ==> [] + cut.value == cut.value;
      } else {
        assert [cur] + [] == [cur];
      }
    } else {
      assert (a + more)[0] == a[0] && (a + more)[1..] == a[1..] + more;
      CutRun(cur + [a[0]], a[1..], more);
      assert cur + [a[0]] + a[1..] == cur + a;
    }
  }

  lemma {:induction false} CutSome(cur: seq<Block>, l: seq<Block>)
    ensures Cut(Some(cur), l).Some?
    decreases |l|
  {
    if l != [] {
      if Begins(l[0]) { CutSome([l[0]], l[1..]); } else { CutSome(cur + [l[0]], l[1..]); }
    }
  }

  /** A list without a segment is dropped, one with a single segment is kept, one with more is cut if it begins with a
      segment block and else is an error. */
  lemma SecondExact(l: seq<Block>, more: seq<seq<Block>>)
    ensures (forall i :: 0 <= i < |l| ==> !l[i].Segment?) ==> Second([l] + more) == Second(more)
    ensures (exists i :: 0 <= i < |l| && l[i].Segment? && forall j :: 0 <= j < |l| && l[j].Segment? ==> j == i) ==>
      Second([l] + more) == Join([l], Second(more))
    ensures (exists i, j :: 0 <= i < j < |l| && l[i].Segment? && l[j].Segment?) ==>
      if l[0].Segment? then Cut(None, l).Some? && Second([l] + more) == Join(Cut(None, l).value, Second(more))
      else Second([l] + more) == None
  {
    hide Cut, Segments, Second;
    SegmentsExact(l);
    SecondStep(l, more);
    CutIff(l);
  }

  lemma SecondStep(l: seq<Block>, more: seq<seq<Block>>)
    ensures var n := Segments(l);
      Second([l] + more) == if n == 0 then Second(more) else if n == 1 then Join([l], Second(more))
                            else if Cut(None, l).None? then None else Join(Cut(None, l).value, Second(more))
  {
    hide Cut, Segments;
    assert ([l] + more)[0] == l && ([l] + more)[1..] == more;
    var rest := Second(more);
    assert rest.Some? ==> [] + rest.value == rest.value;
  }

  lemma CutIff(l: seq<Block>)
    ensures l != [] ==> (Cut(None, l).Some? <==> Begins(l[0]))
  {
    if l != [] && Begins(l[0]) { CutSome([l[0]], l[1..]); }
  }

  // ----- one segment -----

  function RelocsIn(l: seq<Block>): seq<Block> {
    if l == [] then [] else (if l[0].RelocLong? || l[0].RelocWord? then [l[0]] else []) + RelocsIn(l[1..])
  }

  predicate Broken(l: seq<Block>) {
    || (exists i :: 0 <= i < |l| && (l[i].Header? || l[i].End?))
    || exists i, j :: 0 <= i < j < |l| && l[i].Symbols? && l[j].Symbols?
  }

  /** The last segment block counts, all relocations in their order, and the one symbol block there may be. */
  lemma ParseExact(l: seq<Block>)
    ensures ParseSeg(NO_SEGMENT, l) == None <==> Broken(l)
    ensures !Broken(l) ==> var s := ParseSeg(NO_SEGMENT, l).value;
      && s.relocs == (if RelocsIn(l) == [] then None else Some(RelocsIn(l)))
      && (s.seg == None <==> forall i :: 0 <= i < |l| ==> !l[i].Segment?)
      && (forall i :: 0 <= i < |l| && l[i].Segment? && (forall j :: i < j < |l| ==> !l[j].Segment?) ==>
        s.seg == Some(l[i]))
      && (s.symbols == None <==> forall i :: 0 <= i < |l| ==> !l[i].Symbols?)
      && (forall i :: 0 <= i < |l| && l[i].Symbols? ==> s.symbols == Some(l[i]))
  {
    hide ParseSeg, RelocsIn, Broken;
    ParseFails(NO_SEGMENT, l);
    if !Broken(l) {
      ParseRelocsIn(NO_SEGMENT, l);
      assert [] + RelocsIn(l) == RelocsIn(l);
      ParseSegment(NO_SEGMENT, l);
      ParseSymbols(NO_SEGMENT, l);
    }
  }

  lemma {:induction false} ParseFails(s: HunkSegment, l: seq<Block>)
    ensures ParseSeg(s, l) == None <==> Broken(l) || (s.symbols.Some? && exists i :: 0 <= i < |l| && l[i].Symbols?)
    decreases |l|
  {
    if l != [] {
      var t, b := l[1..], l[0];
      assert forall i :: 0 < i < |l| ==> l[i] == t[i - 1];
      assert forall i :: 0 <= i < |t| ==> t[i] == l[i + 1];
      ParseFails(s.(seg := Some(b)), t);
      ParseFails(s.(symbols := Some(b)), t);
      ParseFails(s.(relocs := Some(OrNone(s.relocs) + [b])), t);
    }
  }

  lemma {:induction false} ParseRelocsIn(s: HunkSegment, l: seq<Block>)
    requires ParseSeg(s, l).Some?
    ensures ParseSeg(s, l).value.relocs ==
      if RelocsIn(l) == [] then s.relocs else Some(OrNone(s.relocs) + RelocsIn(l))
    decreases |l|
  {
    if l != [] {
      var b := l[0];
      assert [] + RelocsIn(l[1..]) == RelocsIn(l[1..]);
      if Begins(b) {
        ParseRelocsIn(s.(seg := Some(b)), l[1..]);
      } else if b.Symbols? {
        ParseRelocsIn(s.(symbols := Some(b)), l[1..]);
      } else {
        ParseRelocsIn(s.(relocs := Some(OrNone(s.relocs) + [b])), l[1..]);
        assert OrNone(s.relocs) + [b] + RelocsIn(l[1..]) == OrNone(s.relocs) + RelocsIn(l);
        assert [b] + RelocsIn(l[1..]) == RelocsIn(l) && [b] + [] == [b];
      }
    }
  }

  lemma {:induction false} ParseSegment(s: HunkSegment, l: seq<Block>)
    requires ParseSeg(s, l).Some?
    ensures (forall i :: 0 <= i < |l| ==> !l[i].Segment?) ==> ParseSeg(s, l).value.seg == s.seg
    ensures forall i :: (0 <= i < |l| && l[i].Segment? && (forall j :: i < j < |l| ==> !l[j].Segment?) ==>
      ParseSeg(s, l).value.seg == Some(l[i]))
    ensures ParseSeg(s, l).value.seg == None ==> forall i :: 0 <= i < |l| ==> !l[i].Segment?
    decreases |l|
  {
    if l != [] {
      var b, t := l[0], l[1..];
      assert forall i :: 0 < i < |l| ==> l[i] == t[i - 1];
      assert forall i :: 0 <= i < |t| ==> t[i] == l[i + 1];
      if Begins(b) {
        ParseSegment(s.(seg := Some(b)), t);
      } else if b.Symbols? {
        ParseSegment(s.(symbols := Some(b)), t);
      } else {
        ParseSegment(s.(relocs := Some(OrNone(s.relocs) + [b])), t);
      }
    }
  }

  lemma {:induction false} ParseSymbols(s: HunkSegment, l: seq<Block>)
    requires ParseSeg(s, l).Some?
    ensures (forall i :: 0 <= i < |l| ==> !l[i].Symbols?) ==> ParseSeg(s, l).value.symbols == s.symbols
    ensures forall i :: 0 <= i < |l| && l[i].Symbols? ==> ParseSeg(s, l).value.symbols == Some(l[i])
    decreases |l|
  {
    if l != [] {
      var b, t := l[0], l[1..];
      assert forall i :: 0 < i < |l| ==> l[i] == t[i - 1];
      assert forall i :: 0 <= i < |t| ==> t[i] == l[i + 1];
      if Begins(b) {
        ParseSymbols(s.(seg := Some(b)), t);
      } else if b.Symbols? {
        ParseSymbols(s.(symbols := Some(b)), t);
        ParseFails(s.(symbols := Some(b)), t);
      } else {
        ParseSymbols(s.(relocs := Some(OrNone(s.relocs) + [b])), t);
      }
    }
  }

  // ----- the whole file -----

  lemma {:induction false} ParseAllExact(lists: seq<seq<Block>>)
    ensures ParseAll(lists) == None <==> exists i :: 0 <= i < |lists| && Broken(lists[i])
    ensures ParseAll(lists).Some? ==> |ParseAll(lists).value| == |lists|
    ensures ParseAll(lists).Some? ==>
      forall i :: 0 <= i < |lists| ==> ParseSeg(NO_SEGMENT, lists[i]) == Some(ParseAll(lists).value[i])
  {
    if lists != [] {
      var more := lists[1..];
      assert forall i :: 0 < i < |lists| ==> lists[i] == more[i - 1];
      assert forall i :: 0 <= i < |more| ==> more[i] == lists[i + 1];
      ParseExact(lists[0]);
      ParseAllExact(more);
    }
  }

  /** Segments come from a file exactly when it begins with a header whose table has one size for each list of the
      second round, and no list is broken. */
  lemma ParseFileExact(blks: seq<Block>)
    ensures ParseFile(blks).Some? ==> blks != [] && blks[0].Header? && Round(Split([], false), blks[1..]).Some?
    ensures blks != [] && blks[0].Header? && Round(Split([], false), blks[1..]).Some? ==>
      var lists := Second(Round(Split([], false), blks[1..]).value.lists);
      && (ParseFile(blks).Some? <==>
        lists.Some? && |blks[0].table| == |lists.value| && forall l :: l in lists.value ==> !Broken(l))
      && (ParseFile(blks).Some? ==> var (segs, sizes) := ParseFile(blks).value;
        && sizes == blks[0].table && |segs| == |lists.value|
        && forall i :: 0 <= i < |segs| ==> ParseSeg(NO_SEGMENT, lists.value[i]) == Some(segs[i]))
  {
    hide Round, Second, ParseSeg;
    if blks != [] && blks[0].Header? && Round(Split([], false), blks[1..]).Some? {
      var lists := Second(Round(Split([], false), blks[1..]).value.lists);
      if lists.Some? { ParseAllExact(lists.value); }
    }
  }
}
