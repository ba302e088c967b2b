/** The loops of `HunkBlockFile` over a stream, against the functions of `HunkBlocks`. */
module HunkFiles {
  import opened Bytes
  import opened HunkStream
  import opened HunkBlocks
  import HunkLayout

  // ----- reading -----

  method ReadLongRels(f: Stream) returns (rels: Option<seq<Rel>>)
    requires f.Valid()
    modifies f
    ensures f.Valid()
    ensures rels.None? <==> LongRelsOf(old(f.Rest())).None?
    ensures rels.Some? ==> LongRelsOf(old(f.Rest())) == Some((rels.value, f.Rest()))
  {
    hide LongOf, LongsOf;
    ghost var s := f.Rest();
    var r: seq<Rel> := [];
    BeforeNone(LongRelsOf(s));
    while true
      invariant f.Valid() && LongRelsOf(s) == Before(r, LongRelsOf(f.Rest()))
      decreases |f.Rest()|
    {
      ghost var cur := f.Rest();
      LongRelShrinks(cur);
      var num := f.ReadLong();
      if num.None? { return None; }
      if num.value == 0 { break; }
      var hunkNum := f.ReadLong();
      if hunkNum.None? { return None; }
      var offsets := f.ReadLongs(num.value);
      if offsets.None? { return None; }
      BeforeBefore(r, [Rel(hunkNum.value, offsets.value)], LongRelsOf(f.Rest()));
      r := r + [Rel(hunkNum.value, offsets.value)];
    }
    assert r + [] == r;
    rels := Some(r);
  }

  method ReadWordTable(f: Stream) returns (rels: Option<seq<Rel>>)
    requires f.Valid()
    modifies f
    ensures f.Valid()
    ensures rels.None? <==> WordTableOf(old(f.Rest())).None?
    ensures rels.Some? ==> WordTableOf(old(f.Rest())) == Some((rels.value, f.Rest()))
  {
    hide WordOf, WordsOf, NumWords;
    ghost var s := f.Rest();
    var r: seq<Rel> := [];
    NumWordsNone();
    var numWords: int := 0;
    BeforeNone(WordRelsOf(s));
    while true
      invariant f.Valid() && WordRelsOf(s) == Before(r, WordRelsOf(f.Rest()))
      invariant numWords + 1 == NumWords(r)
      decreases |f.Rest()|
    {
      ghost var cur := f.Rest();
      WordRelShrinks(cur);
      var numOffs := f.ReadWord();
      if numOffs.None? { return None; }
      numWords := numWords + 1;
      if numOffs.value == 0 { break; }
      var hunkNum := f.ReadWord();
      if hunkNum.None? { return None; }
      var n: nat := numOffs.value;
      numWords := numWords + n + 1;
      var offsets := f.ReadWords(numOffs.value);
      if offsets.None? { return None; }
      WordsLength(WordOf(WordOf(cur).value.1).value.1, n);
      BeforeBefore(r, [Rel(hunkNum.value, offsets.value)], WordRelsOf(f.Rest()));
      NumWordsNext(r, Rel(hunkNum.value, offsets.value));
      r := r + [Rel(hunkNum.value, offsets.value)];
    }
    assert r + [] == r;
    // pad to long
    if numWords % 2 == 1 {
      var pad := f.ReadWord();
      if pad.None? { return None; }
    }
    rels := Some(r);
  }

  lemma NumWordsNone()
    ensures NumWords([]) == 1
  {
  }

  lemma {:induction false} NumWordsNext(rs: seq<Rel>, r: Rel)
    ensures NumWords(rs + [r]) == NumWords(rs) + 2 + |r.offs|
  {
    if rs == [] {
      assert (rs + [r])[1..] == [];
    } else {
      assert (rs + [r])[1..] == rs[1..] + [r];
      NumWordsNext(rs[1..], r);
    }
  }

  lemma {:induction false} WordsLength(t: seq<byte>, n: nat)
    requires WordsOf(t, n).Some?
    ensures |WordsOf(t, n).value.0| == n
    decreases n
  {
    hide WordOf;
    if n > 0 { WordsLength(WordOf(t).value.1, n - 1); }
  }

  method ReadSyms(f: Stream) returns (syms: Option<seq<Sym>>)
    requires f.Valid()
    modifies f
    ensures f.Valid()
    ensures syms.None? <==> SymsOf(old(f.Rest())).None?
    ensures syms.Some? ==> SymsOf(old(f.Rest())) == Some((syms.value, f.Rest()))
  {
    hide LongOf, NameOf;
    ghost var s := f.Rest();
    var r: seq<Sym> := [];
    BeforeNone(SymsOf(s));
    while true
      invariant f.Valid() && SymsOf(s) == Before(r, SymsOf(f.Rest()))
      decreases |f.Rest()|
    {
      ghost var cur := f.Rest();
      NameShrinks(cur);
      var name := f.ReadName();
      if name.None? { return None; }
      if name.value.0 == 0 { break; }
      ghost var mid := f.Rest();
      LongShrinks(mid);
      var off := f.ReadLong();
      if off.None? { return None; }
      BeforeBefore(r, [Sym(name.value.1, off.value)], SymsOf(f.Rest()));
      r := r + [Sym(name.value.1, off.value)];
    }
    assert r + [] == r;
    syms := Some(r);
  }

  lemma LongShrinks(s: seq<byte>)
    ensures LongOf(s).Some? ==> |LongOf(s).value.1| < |s|
  {
  }

  method ReadHeader(f: Stream) returns (b: Option<Block>)
    requires f.Valid()
    modifies f
    ensures f.Valid()
    ensures b.None? <==> HeaderOf(old(f.Rest())).None?
    ensures b.Some? ==> HeaderOf(old(f.Rest())) == Some((b.value, f.Rest()))
    ensures var s := old(f.Rest());
      |s| >= 16 && LongAt(s, 0) == 0 && b.Some? ==>
        && b.value.Header? && b.value.names == [] && b.value.tableSize == LongAt(s, 4)
        && b.value.first == LongAt(s, 8) && b.value.last == LongAt(s, 12) && |s| >= 16 + 4 * |b.value.table|
        && forall i :: 0 <= i < |b.value.table| ==> b.value.table[i] == LongAt(s, 16 + 4 * i) % 0x4000_0000
  {
    hide LongOf, NameOf, LongAt;
    ghost var s := f.Rest();
    if |s| >= 16 && LongAt(s, 0) == 0 { HunkLayout.HeaderReads(s); }
    // parse resident library names (AOS 1.x only)
    var names: seq<seq<byte>> := [];
    BeforeNone(NamesOf(s));
    while true
      invariant f.Valid() && NamesOf(s) == Before(names, NamesOf(f.Rest()))
      decreases |f.Rest()|
    {
      ghost var cur := f.Rest();
      NameShrinks(cur);
      var name := f.ReadName();
      if name.None? { return None; }
      if name.value.0 == 0 { break; }
      BeforeBefore(names, [name.value.1], NamesOf(f.Rest()));
      names := names + [name.value.1];
    }
    assert names + [] == names;
    // table size and hunk range
    hide NamesOf;
    var t := f.ReadLongs(3);
    if t.None? { return None; }
    var first, last := Nth(t.value, 1), Nth(t.value, 2);
    // determine number of hunks in size table
    var table := f.ReadLongs(NumHunks(first, last));
    if table.None? { return None; }
    b := Some(Header(names, Nth(t.value, 0), first, last, Masked(table.value)));
  }

  method ReadBlock(f: Stream, id: nat) returns (b: Option<Block>, ghost o: Outcome<Block>)
    requires f.Valid()
    modifies f
    ensures f.Valid() && o == BodyOf(id, old(f.Rest()))
    ensures b.None? <==> o.Err?
    ensures b.Some? ==> o == Ok(b.value, f.Rest())
  {
    hide LongOf, HeaderOf, LongRelsOf, WordTableOf, SymsOf;
    o := BodyOf(id, f.Rest());
    if id == HUNK_HEADER {
      b := ReadHeader(f);
    } else if id == HUNK_CODE || id == HUNK_DATA {
      var size := f.ReadLong();
      if size.None? { return None, o; }
      var n: nat := size.value;
      var data := f.Read(n * 4);
      b := Some(Segment(id, data, size.value));
    } else if id == HUNK_ABSRELOC32 {
      var rels := ReadLongRels(f);
      b := if rels.None? then None else Some(RelocLong(rels.value));
    } else if id == HUNK_RELOC32SHORT {
      var rels := ReadWordTable(f);
      b := if rels.None? then None else Some(RelocWord(rels.value));
    } else if id == HUNK_SYMBOL {
      var syms := ReadSyms(f);
      b := if syms.None? then None else Some(Symbols(syms.value));
    } else if id == HUNK_END {
      b := Some(End);
    } else {
      b := None;
    }
  }

  function Behind(bs: seq<Block>, o: Outcome<seq<Block>>): Outcome<seq<Block>> {
    match o
    case Err(e) => Err(e)
    case Ok(more, rest) => Ok(bs + more, rest)
  }

  lemma BehindBehind(a: seq<Block>, b: seq<Block>, o: Outcome<seq<Block>>)
    ensures Behind(a, Behind(b, o)) == Behind(a + b, o)
  {
    if o.Ok? { assert a + (b + o.value) == a + b + o.value; }
  }

  lemma FileNext(s: seq<byte>, loadSeg: bool)
    requires s != [] && BlockOf(s, loadSeg).Ok?
    ensures FileOf(s, loadSeg) == Behind([BlockOf(s, loadSeg).value], FileOf(BlockOf(s, loadSeg).rest, loadSeg))
  {
    hide BlockOf;
    BlockShrinks(s, loadSeg);
  }

  lemma BehindNone(o: Outcome<seq<Block>>)
    ensures Behind([], o) == o
  {
    if o.Ok? { assert [] + o.value == o.value; }
  }

  lemma BehindLast(bs: seq<Block>, rest: seq<byte>)
    ensures Behind(bs, Ok([], rest)) == Ok(bs, rest)
  {
    assert bs + [] == bs;
  }

  lemma BehindErr(bs: seq<Block>, o: Outcome<seq<Block>>)
    ensures Behind(bs, o).Err? <==> o.Err?
  {
  }

  /** The block id in a tag, without memory flags. */
  function TagId(tag: seq<byte>, loadSeg: bool): nat
    requires |tag| == 4
  {
    IdIn(LongAt(tag, 0) % 0x1_0000, loadSeg)
  }

  /** `read`: blocks until the end of the file. */
  method ReadFile(data: seq<byte>, loadSeg: bool) returns (blocks: Option<seq<Block>>)
    ensures blocks.None? <==> FileOf(data, loadSeg).Err?
    ensures blocks.Some? ==> FileOf(data, loadSeg) == Ok(blocks.value, [])
  {
    hide BodyOf, FileOf, BlockOf, TagId, Behind;
    var f := new Stream(data);
    var r: seq<Block> := [];
    BehindNone(FileOf(data, loadSeg));
    while true
      invariant fresh(f) && f.Valid() && FileOf(data, loadSeg) == Behind(r, FileOf(f.Rest(), loadSeg))
      decreases |f.Rest()|
    {
      ghost var cur := f.Rest();
      FileFails(cur, loadSeg);
      BehindErr(r, FileOf(cur, loadSeg));
      // first read block id
      var tag := f.Read(4);
      // EOF
      if |tag| == 0 { break; }
      if |tag| != 4 { return None; }
      TagOf(cur, tag, loadSeg);
      var b, o := ReadBlock(f, TagId(tag, loadSeg));
      if b.None? { return None; }
      FileNext(cur, loadSeg);
      BlockShrinks(cur, loadSeg);
      BehindBehind(r, [b.value], FileOf(f.Rest(), loadSeg));
      r := r + [b.value];
    }
    BehindLast(r, []);
    blocks := Some(r);
  }

  lemma TagOf(s: seq<byte>, tag: seq<byte>, loadSeg: bool)
    requires tag == Taken(s, 4) && |tag| == 4
    ensures BlockOf(s, loadSeg) == BodyOf(TagId(tag, loadSeg), Dropped(s, 4))
  {
    hide BodyOf;
  }

  lemma FileFails(s: seq<byte>, loadSeg: bool)
    ensures s == [] ==> FileOf(s, loadSeg) == Ok([], [])
    ensures s != [] && BlockOf(s, loadSeg).Err? ==> FileOf(s, loadSeg).Err?
    ensures 0 < |s| < 4 ==> BlockOf(s, loadSeg).Err?
  {
    hide BodyOf;
  }

  // ----- writing -----

  class Output {
    var data: seq<byte>

    constructor ()
      ensures data == []
    {
      data := [];
    }

    method WriteLong(v: long)
      modifies this
      ensures data == old(data) + LongBytes(v)
    {
      data := data + LongBytes(v);
    }

    method WriteWord(v: word)
      modifies this
      ensures data == old(data) + WordBytes(v)
    {
      data := data + WordBytes(v);
    }

    method WriteLongs(vs: seq<nat>)
      requires AreLongs(vs)
      modifies this
      ensures data == old(data) + PutLongs(vs)
    {
      hide LongBytes;
      assert vs[0..] == vs;
      for i := 0 to |vs|
        invariant data + PutLongs(vs[i..]) == old(data) + PutLongs(vs)
      {
        assert vs[i..][1..] == vs[i + 1..] && vs[i..][0] == vs[i];
        Regroup(data, LongBytes(vs[i]), PutLongs(vs[i + 1..]));
        WriteLong(vs[i]);
      }
      assert data + [] == data;
    }

    method WriteWords(vs: seq<nat>)
      requires AreWords(vs)
      modifies this
      ensures data == old(data) + PutWords(vs)
    {
      hide WordBytes;
      assert vs[0..] == vs;
      for i := 0 to |vs|
        invariant data + PutWords(vs[i..]) == old(data) + PutWords(vs)
      {
        assert vs[i..][1..] == vs[i + 1..] && vs[i..][0] == vs[i];
        Regroup(data, WordBytes(vs[i]), PutWords(vs[i + 1..]));
        WriteWord(vs[i]);
      }
      assert data + [] == data;
    }

    /** `_write_name`. */
    method WriteName(s: seq<byte>)
      requires |s| < 0x400_0000 - 3
      modifies this
      ensures data == old(data) + PutName(s)
    {
      hide LongBytes;
      var numLongs := (|s| + 3) / 4;
      var b := s + ZeroBytes(4 * numLongs - |s|);
      Regroup(data, LongBytes(numLongs), b);
      WriteLong(numLongs);
      data := data + b;
    }

    method WriteLongRels(rs: seq<Rel>)
      requires LongRelsFit(rs)
      modifies this
      ensures data == old(data) + PutLongRels(rs)
    {
      hide LongBytes, PutLongs;
      assert rs[0..] == rs;
      for i := 0 to |rs|
        invariant data + PutLongRels(rs[i..]) == old(data) + PutLongRels(rs)
      {
        assert rs[i..][1..] == rs[i + 1..] && rs[i..][0] == rs[i];
        Regroup(data, PutLongRel(rs[i]), PutLongRels(rs[i + 1..]));
        ghost var before := data;
        WriteLong(|rs[i].offs|);
        WriteLong(rs[i].hunk);
        WriteLongs(rs[i].offs);
        assert data == before + PutLongRel(rs[i]);
      }
      WriteLong(0);
    }

    method WriteWordTable(rs: seq<Rel>)
      requires WordRelsFit(rs)
      modifies this
      ensures data == old(data) + PutWordTable(rs)
    {
      hide WordBytes, PutWords;
      assert rs[0..] == rs;
      var numWords := 0;
      for i := 0 to |rs|
        invariant data + PutWordRels(rs[i..]) == old(data) + PutWordRels(rs)
        invariant numWords + NumWords(rs[i..]) == NumWords(rs)
      {
        assert rs[i..][1..] == rs[i + 1..] && rs[i..][0] == rs[i];
        Regroup(data, PutWordRel(rs[i]), PutWordRels(rs[i + 1..]));
        ghost var before := data;
        WriteWord(|rs[i].offs|);
        WriteWord(rs[i].hunk);
        WriteWords(rs[i].offs);
        assert data == before + PutWordRel(rs[i]);
        numWords := numWords + 2 + |rs[i].offs|;
      }
      // end
      WriteWord(0);
      numWords := numWords + 1;
      assert data == old(data) + PutWordRels(rs);
      // padding?
      if numWords % 2 == 1 {
        Regroup(old(data), PutWordRels(rs), WordBytes(0));
        WriteWord(0);
      } else {
        assert PutWordRels(rs) + [] == PutWordRels(rs);
      }
    }

    method WriteSyms(syms: seq<Sym>)
      requires SymsFit(syms)
      modifies this
      ensures data == old(data) + PutSyms(syms)
    {
      hide LongBytes, PutName;
      assert syms[0..] == syms;
      for i := 0 to |syms|
        invariant data + PutSyms(syms[i..]) == old(data) + PutSyms(syms)
      {
        assert syms[i..][1..] == syms[i + 1..] && syms[i..][0] == syms[i];
        Regroup(data, PutName(syms[i].name), LongBytes(syms[i].off) + PutSyms(syms[i + 1..]));
        Regroup(data + PutName(syms[i].name), LongBytes(syms[i].off), PutSyms(syms[i + 1..]));
        assert PutSyms(syms[i..]) == PutName(syms[i].name) + (LongBytes(syms[i].off) + PutSyms(syms[i + 1..]));
        WriteName(syms[i].name);
        WriteLong(syms[i].off);
      }
      WriteLong(0);
    }

    method WriteHeader(b: Block)
      requires b.Header? && Fits(b)
      modifies this
      ensures data == old(data) + PutHeader(b)
      ensures b.names == [] ==> var n := |old(data)|;
        && |data| == n + 16 + 4 * |b.table| && LongAt(data, n) == 0
        && LongAt(data, n + 4) == b.tableSize && LongAt(data, n + 8) == b.first && LongAt(data, n + 12) == b.last
        && forall i :: 0 <= i < |b.table| ==> LongAt(data, n + 16 + 4 * i) == b.table[i]
    {
      hide LongBytes, PutName, PutLongs, LongAt;
      ghost var start := data;
      if b.names == [] { HunkLayout.HeaderAt(start, b); }
      // write residents
      var names := b.names;
      assert names[0..] == names;
      for i := 0 to |names|
        invariant data + PutNames(names[i..]) == start + PutNames(names)
      {
        assert names[i..][1..] == names[i + 1..] && names[i..][0] == names[i];
        Regroup(data, PutName(names[i]), PutNames(names[i + 1..]));
        WriteName(names[i]);
      }
      WriteLong(0);
      assert data == start + PutNames(b.names);
      // table size and hunk range
      WriteLong(b.tableSize);
      WriteLong(b.first);
      WriteLong(b.last);
      // sizes
      WriteLongs(b.table);
    }

    method WriteBlock(b: Block, loadSeg: bool)
      requires Fits(b)
      modifies this
      ensures data == old(data) + PutBlock(b, loadSeg)
    {
      hide LongBytes, PutHeader, PutLongRels, PutWordTable, PutSyms;
      // write block id
      var id := BlkId(b);
      if loadSeg && id == HUNK_RELOC32SHORT { id := HUNK_DREL32; }
      Regroup(data, LongBytes(id), PutBody(b));
      WriteLong(id);
      ghost var mid := data;
      // write block itself
      match b {
        case Header(_, _, _, _, _) => WriteHeader(b);
        case Segment(_, d, size) =>
          Regroup(data, LongBytes(size), d);
          WriteLong(size);
          data := data + d;
        case RelocLong(rs) => WriteLongRels(rs);
        case RelocWord(rs) => WriteWordTable(rs);
        case Symbols(syms) => WriteSyms(syms);
        case End => assert data + [] == data;
      }
      assert data == mid + PutBody(b);
    }

    /** `write`. */
    method WriteFile(blocks: seq<Block>, loadSeg: bool)
      requires forall i :: 0 <= i < |blocks| ==> Fits(blocks[i])
      modifies this
      ensures data == old(data) + PutFile(blocks, loadSeg)
    {
      hide PutBlock, Fits;
      assert blocks[0..] == blocks;
      for i := 0 to |blocks|
        invariant data + PutFile(blocks[i..], loadSeg) == old(data) + PutFile(blocks, loadSeg)
      {
        assert blocks[i..][1..] == blocks[i + 1..] && blocks[i..][0] == blocks[i];
        Regroup(data, PutBlock(blocks[i], loadSeg), PutFile(blocks[i + 1..], loadSeg));
        WriteBlock(blocks[i], loadSeg);
      }
      assert data + [] == data;
    }
  }

  lemma Regroup(a: seq<byte>, b: seq<byte>, c: seq<byte>)
    ensures a + (b + c) == a + b + c
  {
  }
}
