/** Where the numbers of a hunk stand in the bytes of its block, position by position. */
module HunkLayout {
  import opened Bytes
  import opened HunkStream
  import opened HunkBlocks

  // ----- longs and words in a row -----

  lemma {:induction false} LongsAt(vs: seq<nat>, i: nat)
    requires AreLongs(vs) && i < |vs|
    ensures |PutLongs(vs)| == 4 * |vs| && LongAt(PutLongs(vs), 4 * i) == vs[i]
  {
    hide LongBytes, LongAt;
    LongsSize(vs);
    var a, b := LongBytes(vs[0]), PutLongs(vs[1..]);
    if i == 0 {
      SliceLong(a + b, 0, a, 0);
    } else {
      LongsAt(vs[1..], i - 1);
      assert (a + b)[4 * i..4 * i + 4] == b[4 * (i - 1)..4 * (i - 1) + 4];
      LongAtSame(a + b, 4 * i, b, 4 * (i - 1));
    }
  }

  lemma {:induction false} LongsSize(vs: seq<nat>)
    requires AreLongs(vs)
    ensures |PutLongs(vs)| == 4 * |vs|
  {
    hide LongBytes;
    if vs != [] { LongsSize(vs[1..]); }
  }

  /** The same bytes at another place. */
  lemma SliceLong(s: seq<byte>, at: nat, b: seq<byte>, off: nat)
    requires at + 4 <= |s| && off + 4 <= |b| && s[at..at + 4] == b[off..off + 4]
    ensures LongAt(s, at) == LongAt(b, off)
  {
    LongAtSame(s, at, b, off);
  }

  lemma {:induction false} WordsAt(vs: seq<nat>, i: nat)
    requires AreWords(vs) && i < |vs|
    ensures |PutWords(vs)| == 2 * |vs| && WordAt(PutWords(vs), 2 * i) == vs[i]
  {
    hide WordBytes;
    WordsSize(vs);
    if i > 0 {
      WordsAt(vs[1..], i - 1);
      var a, b := WordBytes(vs[0]), PutWords(vs[1..]);
      assert (a + b)[2 * i] == b[2 * (i - 1)] && (a + b)[2 * i + 1] == b[2 * (i - 1) + 1];
    }
  }

  lemma {:induction false} WordsSize(vs: seq<nat>)
    requires AreWords(vs)
    ensures |PutWords(vs)| == 2 * |vs|
  {
    hide WordBytes;
    if vs != [] { WordsSize(vs[1..]); }
  }

  /** `b` stands in `s` from `at` on. */
  ghost predicate Stands(s: seq<byte>, at: nat, b: seq<byte>) { at + |b| <= |s| && s[at..at + |b|] == b }

  lemma StandingLong(s: seq<byte>, at: nat, b: seq<byte>, off: nat)
    requires Stands(s, at, b) && off + 4 <= |b|
    ensures at + off + 4 <= |s| && LongAt(s, at + off) == LongAt(b, off)
  {
    forall k | off <= k < off + 4 ensures s[at + k] == b[k] { assert s[at..at + |b|][k] == s[at + k]; }
    assert s[at + off..at + off + 4] == b[off..off + 4];
    LongAtSame(s, at + off, b, off);
  }

  lemma OneLong(s: seq<byte>, at: nat, v: long)
    requires Stands(s, at, LongBytes(v))
    ensures at + 4 <= |s| && LongAt(s, at) == v
  {
    hide LongBytes, LongAt;
    StandingLong(s, at, LongBytes(v), 0);
  }

  lemma StandingLongs(s: seq<byte>, at: nat, vs: seq<nat>)
    requires AreLongs(vs) && Stands(s, at, PutLongs(vs))
    ensures at + 4 * |vs| <= |s| && forall i :: 0 <= i < |vs| ==> LongAt(s, at + 4 * i) == vs[i]
  {
    hide LongAt, PutLongs, Stands;
    StandsWithin(s, at, PutLongs(vs));
    LongsSize(vs);
    forall i | 0 <= i < |vs| ensures LongAt(s, at + 4 * i) == vs[i] {
      LongsAt(vs, i);
      StandingLong(s, at, PutLongs(vs), 4 * i);
    }
  }

  lemma StandsWithin(s: seq<byte>, at: nat, b: seq<byte>)
    requires Stands(s, at, b)
    ensures at + |b| <= |s|
  {
  }

  // ----- names -----

  /** A name: its length in longs, the characters, zeros up to a long. */
  lemma NameLayout(s: seq<byte>)
    requires |s| < 0x400_0000 - 3
    ensures var (d, n) := (PutName(s), (|s| + 3) / 4);
      && |d| == 4 + 4 * n && LongAt(d, 0) == n && d[4..4 + |s|] == s
      && forall k :: 4 + |s| <= k < |d| ==> d[k] == 0
  {
    hide LongBytes, LongAt;
    var d := PutName(s);
    OneLong(d, 0, NameLongs(|s|));
  }

  /** A length in longs is taken without its upper eight bits. */
  lemma NameFlags(s: seq<byte>, t: seq<byte>)
    requires |s| >= 4 && |t| >= 4 && s[4..] == t[4..]
    requires LongAt(s, 0) % 0x100_0000 == LongAt(t, 0) % 0x100_0000 && LongAt(s, 0) != 0 && LongAt(t, 0) != 0
    ensures NameOf(s) == NameOf(t)
  {
  }

  // ----- header -----

  /** A header without names: tag 0x3F3, no names, table size, first hunk, last hunk, then the sizes. */
  lemma HeaderLayout(b: Block, loadSeg: bool)
    requires b.Header? && Fits(b) && b.names == []
    ensures var d := PutBlock(b, loadSeg);
      && |d| == 20 + 4 * |b.table| && LongAt(d, 0) == 0x3F3 && LongAt(d, 4) == 0
      && LongAt(d, 8) == b.tableSize && LongAt(d, 12) == b.first && LongAt(d, 16) == b.last
      && forall i :: 0 <= i < |b.table| ==> LongAt(d, 20 + 4 * i) == b.table[i]
  {
    hide LongBytes, LongAt, PutHeader;
    HeaderAt(LongBytes(0x3F3), b);
    OneLong(PutBlock(b, loadSeg), 0, 0x3F3);
  }

  /** The part behind the tag, wherever it is written. */
  lemma HeaderAt(start: seq<byte>, b: Block)
    requires b.Header? && Fits(b) && b.names == []
    ensures var (d, n) := (start + PutHeader(b), |start|);
      && |d| == n + 16 + 4 * |b.table| && LongAt(d, n) == 0
      && LongAt(d, n + 4) == b.tableSize && LongAt(d, n + 8) == b.first && LongAt(d, n + 12) == b.last
      && forall i :: 0 <= i < |b.table| ==> LongAt(d, n + 16 + 4 * i) == b.table[i]
  {
    hide LongBytes, LongAt, PutLongs;
    var d, n, t := start + PutHeader(b), |start|, PutLongs(b.table);
    NoNames();
    LongsSize(b.table);
    assert d == start + (LongBytes(0) + (LongBytes(b.tableSize) + (LongBytes(b.first) + (LongBytes(b.last) + t))));
    OneLong(d, n, 0);
    OneLong(d, n + 4, b.tableSize);
    OneLong(d, n + 8, b.first);
    OneLong(d, n + 12, b.last);
    StandingLongs(d, n + 16, b.table);
  }

  lemma NoNames()
    ensures PutNames([]) == LongBytes(0)
  {
  }

  /** A header with names has the first of them behind the tag, and then goes on as the header with the other
      names does. */
  lemma HeaderNames(b: Block, loadSeg: bool)
    requires b.Header? && Fits(b) && b.names != []
    ensures var d := PutBlock(b, loadSeg);
      var less := Header(b.names[1..], b.tableSize, b.first, b.last, b.table);
      && Fits(less) && LongAt(d, 0) == 0x3F3 && d == d[..4] + PutName(b.names[0]) + PutBlock(less, loadSeg)[4..]
  {
    hide LongBytes, LongAt, PutLongs, PutName, PutNames;
    var d := PutBlock(b, loadSeg);
    var less := Header(b.names[1..], b.tableSize, b.first, b.last, b.table);
    var rest := LongBytes(b.tableSize) + (LongBytes(b.first) + (LongBytes(b.last) + PutLongs(b.table)));
    NamesParts(b.names);
    assert PutBlock(less, loadSeg) == LongBytes(0x3F3) + (PutNames(b.names[1..]) + rest);
    assert d == LongBytes(0x3F3) + (PutName(b.names[0]) + PutNames(b.names[1..]) + rest);
    OneMore(LongBytes(0x3F3), PutName(b.names[0]), PutNames(b.names[1..]), rest);
    OneLong(d, 0, 0x3F3);
  }

  lemma NamesParts(names: seq<seq<byte>>)
    requires NamesFit(names) && names != []
    ensures NamesFit(names[1..]) && PutNames(names) == PutName(names[0]) + PutNames(names[1..])
  {
    hide PutName;
  }

  lemma OneMore(t: seq<byte>, a: seq<byte>, n: seq<byte>, rest: seq<byte>)
    requires |t| == 4
    ensures var d := t + (a + n + rest); Stands(d, 0, t) && d == d[..4] + a + (t + (n + rest))[4..]
  {
    assert (t + (n + rest))[4..] == n + rest;
  }

  /** What the reader makes of such a header, memory flags in the sizes included. */
  lemma HeaderReads(s: seq<byte>)
    requires |s| >= 16 && LongAt(s, 0) == 0
    ensures var n := if LongAt(s, 12) + 1 < LongAt(s, 8) then 0 else LongAt(s, 12) + 1 - LongAt(s, 8);
      && (HeaderOf(s).Some? <==> 16 + 4 * n <= |s|)
      && (HeaderOf(s).Some? ==> HeaderOf(s).value.1 == s[16 + 4 * n..] && |HeaderOf(s).value.0.table| == n)
      && (HeaderOf(s).Some? ==> var b := HeaderOf(s).value.0;
           && b.names == [] && b.tableSize == LongAt(s, 4) && b.first == LongAt(s, 8) && b.last == LongAt(s, 12)
           && forall i :: 0 <= i < n ==> b.table[i] == LongAt(s, 16 + 4 * i) % 0x4000_0000)
  {
    hide LongAt, LongsOf, NamesOf;
    var s1, s2 := s[4..], s[16..];
    NoNamesRead(s);
    LongsIs(s1, 3);
    forall i | 0 <= i < 3 ensures LongAt(s1, 4 * i) == LongAt(s, 4 + 4 * i) { TailLong(s, 4, 4 * i); }
    var t := LongsOf(s1, 3).value.0;
    assert t[0] == LongAt(s, 4) && t[1] == LongAt(s, 8) && t[2] == LongAt(s, 12);
    var n := if LongAt(s, 12) + 1 < LongAt(s, 8) then 0 else LongAt(s, 12) + 1 - LongAt(s, 8);
    assert s1[12..] == s2;
    LongsIs(s2, n);
    assert 16 + 4 * n <= |s| ==> s2[4 * n..] == s[16 + 4 * n..];
    forall i | 0 <= i < n && 16 + 4 * n <= |s| ensures LongAt(s2, 4 * i) == LongAt(s, 16 + 4 * i) {
      TailLong(s, 16, 4 * i);
    }
  }

  lemma NoNamesRead(s: seq<byte>)
    requires |s| >= 4 && LongAt(s, 0) == 0
    ensures NamesOf(s) == Some(([], s[4..]))
  {
    hide LongAt;
  }

  lemma TailLong(s: seq<byte>, k: nat, i: nat)
    requires k + i + 4 <= |s|
    ensures LongAt(s[k..], i) == LongAt(s, k + i)
  {
    assert s[k..][i..i + 4] == s[k + i..k + i + 4];
    LongAtSame(s[k..], i, s, k + i);
  }

  /** A row of longs is there exactly when its bytes are. */
  lemma {:induction false} LongsIs(s: seq<byte>, n: nat)
    ensures LongsOf(s, n).Some? <==> 4 * n <= |s|
    ensures LongsOf(s, n).Some? ==> LongsOf(s, n).value.1 == s[4 * n..] && |LongsOf(s, n).value.0| == n
    ensures LongsOf(s, n).Some? ==> forall i :: 0 <= i < n ==> LongsOf(s, n).value.0[i] == LongAt(s, 4 * i)
    decreases n
  {
    hide LongAt;
    if n > 0 && |s| >= 4 {
      var t := s[4..];
      LongsIs(t, n - 1);
      if 4 * n <= |s| {
        forall i | 1 <= i < n ensures LongAt(t, 4 * (i - 1)) == LongAt(s, 4 * i) {
          assert t[4 * (i - 1)..4 * (i - 1) + 4] == s[4 * i..4 * i + 4];
          LongAtSame(t, 4 * (i - 1), s, 4 * i);
        }
        assert t[4 * (n - 1)..] == s[4 * n..];
      }
    }
  }

  // ----- segments and the end -----

  /** Code has tag 0x3E9 and data 0x3EA; then come the size in longs and the bytes. */
  lemma SegmentLayout(b: Block, loadSeg: bool)
    requires b.Segment? && Fits(b)
    ensures b.id == 0x3E9 || b.id == 0x3EA
    ensures var d := PutBlock(b, loadSeg);
      |d| == 8 + |b.data| && LongAt(d, 0) == b.id && LongAt(d, 4) == b.sizeLongs && d[8..] == b.data
  {
    hide LongBytes, LongAt;
    var d := PutBlock(b, loadSeg);
    OneLong(d, 0, b.id);
    OneLong(d, 4, b.sizeLongs);
  }

  lemma EndLayout(loadSeg: bool)
    ensures |PutBlock(End, loadSeg)| == 4 && LongAt(PutBlock(End, loadSeg), 0) == 0x3F2
  {
    hide LongBytes, LongAt;
    OneLong(PutBlock(End, loadSeg), 0, 0x3F2);
  }

  // ----- relocations -----

  /** Long relocations have tag 0x3EC. */
  lemma LongRelTag(rs: seq<Rel>, loadSeg: bool)
    requires LongRelsFit(rs)
    ensures var d := PutBlock(RelocLong(rs), loadSeg);
      |d| >= 4 && LongAt(d, 0) == 0x3EC && d[4..] == PutLongRels(rs)
  {
    hide LongBytes, LongAt, PutLongRels;
    OneLong(PutBlock(RelocLong(rs), loadSeg), 0, 0x3EC);
  }

  /** An entry is the number of offsets, the hunk and the offsets; then the other entries follow. */
  lemma LongRelLayout(rs: seq<Rel>)
    requires LongRelsFit(rs) && rs != []
    ensures var (d, offs, more) := (PutLongRels(rs), rs[0].offs, PutLongRels(rs[1..]));
      && |d| == 8 + 4 * |offs| + |more| && LongAt(d, 0) == |offs| && LongAt(d, 4) == rs[0].hunk
      && (forall k :: 0 <= k < |offs| ==> LongAt(d, 8 + 4 * k) == offs[k]) && d[8 + 4 * |offs|..] == more
  {
    hide LongBytes, LongAt, PutLongs, PutLongRels;
    LongRelParts(rs);
    var d, offs := PutLongRels(rs), rs[0].offs;
    LongsSize(offs);
    InRow(LongBytes(|offs|), LongBytes(rs[0].hunk), PutLongs(offs), PutLongRels(rs[1..]));
    OneLong(d, 0, |offs|);
    OneLong(d, 4, rs[0].hunk);
    StandingLongs(d, 8, offs);
  }

  lemma LongRelEnd()
    ensures |PutLongRels([])| == 4 && LongAt(PutLongRels([]), 0) == 0
  {
    hide LongBytes, LongAt;
    OneLong(PutLongRels([]), 0, 0);
  }

  lemma LongRelParts(rs: seq<Rel>)
    requires LongRelsFit(rs)
    ensures rs == [] ==> PutLongRels(rs) == LongBytes(0)
    ensures rs != [] ==> LongRelFits(rs[0]) && LongRelsFit(rs[1..])
    ensures rs != [] ==> var (offs, more) := (rs[0].offs, PutLongRels(rs[1..]));
      PutLongRels(rs) == LongBytes(|offs|) + LongBytes(rs[0].hunk) + PutLongs(offs) + more
  {
    hide LongBytes, PutLongs;
  }

  lemma InRow(a: seq<byte>, b: seq<byte>, c: seq<byte>, m: seq<byte>)
    requires |a| == |b| == 4
    ensures var d := a + b + c + m;
      Stands(d, 0, a) && Stands(d, 4, b) && Stands(d, 8, c) && |d| == 8 + |c| + |m| && d[8 + |c|..] == m
  {
  }

  /** Word relocations have tag 0x3FC, in load modules 0x3F7, and are padded to a long. */
  lemma WordRelTag(rs: seq<Rel>, loadSeg: bool)
    requires WordRelsFit(rs)
    ensures var (d, table) := (PutBlock(RelocWord(rs), loadSeg), PutWordRels(rs));
      && |d| % 4 == 0 && 4 + |table| <= |d| < 8 + |table| && LongAt(d, 0) == (if loadSeg then 0x3F7 else 0x3FC)
      && d[4..4 + |table|] == table && forall k :: 4 + |table| <= k < |d| ==> d[k] == 0
  {
    hide LongBytes, LongAt, PutWordRels, NumWords;
    var d := PutBlock(RelocWord(rs), loadSeg);
    OneLong(d, 0, if loadSeg then 0x3F7 else 0x3FC);
    TableSize(rs);
  }

  lemma {:induction false} TableSize(rs: seq<Rel>)
    requires WordRelsFit(rs)
    ensures |PutWordRels(rs)| == 2 * NumWords(rs)
  {
    hide WordBytes;
    if rs != [] {
      WordsSize(rs[0].offs);
      TableSize(rs[1..]);
    }
  }

  /** The entries as with longs, in words. */
  lemma WordRelLayout(rs: seq<Rel>)
    requires WordRelsFit(rs) && rs != []
    ensures var (d, offs, more) := (PutWordRels(rs), rs[0].offs, PutWordRels(rs[1..]));
      && |d| == 4 + 2 * |offs| + |more| && WordAt(d, 0) == |offs| && WordAt(d, 2) == rs[0].hunk
      && (forall k :: 0 <= k < |offs| ==> WordAt(d, 4 + 2 * k) == offs[k]) && d[4 + 2 * |offs|..] == more
  {
    hide PutWords;
    var d, offs := PutWordRels(rs), rs[0].offs;
    WordsSize(offs);
    assert d[4..4 + 2 * |offs|] == PutWords(offs);
    forall k | 0 <= k < |offs| ensures WordAt(d, 4 + 2 * k) == offs[k] {
      WordsAt(offs, k);
      assert d[4..4 + 2 * |offs|][2 * k] == d[4 + 2 * k] && d[4..4 + 2 * |offs|][2 * k + 1] == d[4 + 2 * k + 1];
    }
  }

  lemma WordRelEnd()
    ensures |PutWordRels([])| == 2 && WordAt(PutWordRels([]), 0) == 0
  {
  }

  // ----- symbols -----

  /** Symbols have tag 0x3F0; each is a name and a value, and an empty name ends the table. */
  lemma SymsLayout(syms: seq<Sym>, loadSeg: bool)
    requires SymsFit(syms)
    ensures var d := PutBlock(Symbols(syms), loadSeg);
      && |d| >= 8 && LongAt(d, 0) == 0x3F0 && (syms == [] ==> |d| == 8 && LongAt(d, 4) == 0)
      && (syms != [] ==> var (name, n) := (PutName(syms[0].name), |PutName(syms[0].name)|);
           && |d| >= 8 + n && d[4..4 + n] == name && LongAt(d, 4 + n) == syms[0].off
           && d[8 + n..] == PutBlock(Symbols(syms[1..]), loadSeg)[4..])
  {
    hide LongBytes, LongAt, PutName, PutSyms;
    var d := PutBlock(Symbols(syms), loadSeg);
    SymsParts(syms);
    assert d == LongBytes(0x3F0) + PutSyms(syms);
    OneLong(d, 0, 0x3F0);
    if syms == [] {
      OneLong(d, 4, 0);
    } else {
      var name, off, more := PutName(syms[0].name), LongBytes(syms[0].off), PutSyms(syms[1..]);
      InFour(LongBytes(0x3F0), name, off, more);
      OneLong(d, 4 + |name|, syms[0].off);
      assert PutBlock(Symbols(syms[1..]), loadSeg) == LongBytes(0x3F0) + more;
    }
  }

  lemma SymsParts(syms: seq<Sym>)
    requires SymsFit(syms)
    ensures syms == [] ==> PutSyms(syms) == LongBytes(0)
    ensures syms != [] ==> SymsFit(syms[1..])
    ensures syms != [] ==> PutSyms(syms) == PutName(syms[0].name) + LongBytes(syms[0].off) + PutSyms(syms[1..])
  {
    hide LongBytes, PutName;
  }

  lemma InFour(t: seq<byte>, a: seq<byte>, o: seq<byte>, m: seq<byte>)
    requires |t| == 4 && |o| == 4
    ensures var d := t + (a + o + m);
      && |d| == 8 + |a| + |m| && d[4..4 + |a|] == a && Stands(d, 4 + |a|, o) && d[8 + |a|..] == m
  {
  }

  // ----- the file -----

  /** The blocks follow each other; a reader takes the lower 16 bits of a tag. */
  lemma {:induction false} BlocksInOrder(blocks: seq<Block>, loadSeg: bool, n: nat)
    requires n <= |blocks| && forall i :: 0 <= i < |blocks| ==> Fits(blocks[i])
    ensures PutFile(blocks, loadSeg) == PutFile(blocks[..n], loadSeg) + PutFile(blocks[n..], loadSeg)
    decreases |blocks|
  {
    hide PutBlock, Fits, PutFile;
    if n == 0 {
      assert blocks[..0] == [] && blocks[0..] == blocks;
      NoBlock(loadSeg);
    } else {
      BlocksInOrder(blocks[1..], loadSeg, n - 1);
      FirstBlock(blocks, loadSeg);
      FirstBlock(blocks[..n], loadSeg);
      assert blocks[..n][1..] == blocks[1..][..n - 1] && blocks[1..][n - 1..] == blocks[n..];
    }
  }

  lemma NoBlock(loadSeg: bool)
    ensures PutFile([], loadSeg) == []
  {
  }

  lemma FirstBlock(blocks: seq<Block>, loadSeg: bool)
    requires blocks != [] && forall i :: 0 <= i < |blocks| ==> Fits(blocks[i])
    ensures PutFile(blocks, loadSeg) == PutBlock(blocks[0], loadSeg) + PutFile(blocks[1..], loadSeg)
  {
    hide PutBlock, Fits;
  }

  lemma TagFlags(s: seq<byte>, t: seq<byte>, loadSeg: bool)
    requires |s| >= 4 && |t| >= 4 && s[4..] == t[4..] && LongAt(s, 0) % 0x1_0000 == LongAt(t, 0) % 0x1_0000
    ensures BlockOf(s, loadSeg) == BlockOf(t, loadSeg)
  {
    hide BodyOf;
  }
}
