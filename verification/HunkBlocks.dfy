/** `HunkBlockFile`: the blocks of a load module as they are written to and read from a stream. */
module HunkBlocks {
  import opened Bytes
  import opened HunkStream

  const HUNK_CODE := 1001
  const HUNK_DATA := 1002
  const HUNK_ABSRELOC32 := 1004
  const HUNK_SYMBOL := 1008
  const HUNK_END := 1010
  const HUNK_HEADER := 1011
  const HUNK_DREL32 := 1015
  const HUNK_RELOC32SHORT := 1020

  /** Relocations towards one hunk. */
  datatype Rel = Rel(hunk: nat, offs: seq<nat>)

  datatype Sym = Sym(name: seq<byte>, off: nat)

  datatype Block =
    | Header(names: seq<seq<byte>>, tableSize: nat, first: nat, last: nat, table: seq<nat>)
    | Segment(id: nat, data: seq<byte>, sizeLongs: nat)
    | RelocLong(longRels: seq<Rel>)
    | RelocWord(wordRels: seq<Rel>)
    | Symbols(syms: seq<Sym>)
    | End

  function BlkId(b: Block): nat {
    match b
    case Header(_, _, _, _, _) => HUNK_HEADER
    case Segment(id, _, _) => id
    case RelocLong(_) => HUNK_ABSRELOC32
    case RelocWord(_) => HUNK_RELOC32SHORT
    case Symbols(_) => HUNK_SYMBOL
    case End => HUNK_END
  }

  /** Errors: what `struct` or `HunkParseError` raises, and block types that are not part of this model. */
  datatype HunkError = ParseError | OtherBlock

  datatype Outcome<T> = Ok(value: T, rest: seq<byte>) | Err(error: HunkError)

  // ----- long relocations -----

  ghost predicate LongRelFits(r: Rel) { r.hunk < 0x1_0000_0000 && |r.offs| < 0x1_0000_0000 && AreLongs(r.offs) }

  ghost predicate LongRelsFit(rs: seq<Rel>) { forall i :: 0 <= i < |rs| ==> LongRelFits(rs[i]) }

  function PutLongRel(r: Rel): seq<byte>
    requires LongRelFits(r)
  {
    LongBytes(|r.offs|) + LongBytes(r.hunk) + PutLongs(r.offs)
  }

  function PutLongRels(rs: seq<Rel>): seq<byte>
    requires LongRelsFit(rs)
  {
    if rs == [] then LongBytes(0) else PutLongRel(rs[0]) + PutLongRels(rs[1..])
  }

  /** One entry; no entry behind the count 0. */
  function LongRelOf(s: seq<byte>): Parsed<Option<Rel>> {
    var num := LongOf(s);
    if num.None? then None
    else if num.value.0 == 0 then Some((None, num.value.1))
    else
      var hunk := LongOf(num.value.1);
      if hunk.None? then None else
        var offs := LongsOf(hunk.value.1, num.value.0);
        if offs.None? then None else Some((Some(Rel(hunk.value.0, offs.value.0)), offs.value.1))
  }

  lemma LongRelShrinks(s: seq<byte>)
    ensures LongRelOf(s).Some? ==> |LongRelOf(s).value.1| < |s|
  {
    var num := LongOf(s);
    if num.Some? && num.value.0 != 0 {
      var hunk := LongOf(num.value.1);
      if hunk.Some? { LongsShrink(hunk.value.1, num.value.0); }
    }
  }

  function LongRelsOf(s: seq<byte>): Parsed<seq<Rel>>
    decreases |s|
  {
    LongRelShrinks(s);
    var r := LongRelOf(s);
    if r.None? then None
    else if r.value.0.None? then Some(([], r.value.1))
    else Before([r.value.0.value], LongRelsOf(r.value.1))
  }

  lemma LongRelBack(r: Rel, rest: seq<byte>)
    requires LongRelFits(r)
    ensures r.offs != [] ==> LongRelOf(PutLongRel(r) + rest) == Some((Some(r), rest))
    ensures r.offs == [] ==> LongRelOf(PutLongRel(r) + rest) == Some((None, LongBytes(r.hunk) + rest))
  {
    hide LongOf, LongBytes, LongsOf;
    var a, b, c := LongBytes(|r.offs|), LongBytes(r.hunk), PutLongs(r.offs);
    assert PutLongRel(r) + rest == a + (b + (c + rest));
    LongBack(|r.offs|, b + (c + rest));
    LongBack(r.hunk, c + rest);
    LongsBack(r.offs, rest);
    if r.offs == [] { assert c + rest == rest; }
  }

  ghost predicate NoEmpty(rs: seq<Rel>) { forall i :: 0 <= i < |rs| ==> rs[i].offs != [] }

  /** A relocation table comes back exactly when no hunk has an empty list of offsets: its count would be read
      as the end of the table. */
  lemma {:induction false} LongRelsBack(rs: seq<Rel>, rest: seq<byte>)
    requires LongRelsFit(rs)
    ensures NoEmpty(rs) ==> LongRelsOf(PutLongRels(rs) + rest) == Some((rs, rest))
    ensures !NoEmpty(rs) ==>
      LongRelsOf(PutLongRels(rs) + rest).Some? && LongRelsOf(PutLongRels(rs) + rest).value.0 != rs
    decreases |rs|
  {
    hide LongOf, LongBytes, LongRelOf, PutLongRel;
    if rs == [] {
      EndOfLongRels(rest);
    } else {
      var more := PutLongRels(rs[1..]) + rest;
      assert PutLongRels(rs) + rest == PutLongRel(rs[0]) + more;
      LongRelBack(rs[0], more);
      LongRelsBack(rs[1..], rest);
      assert [rs[0]] + rs[1..] == rs;
      assert NoEmpty(rs) <==> rs[0].offs != [] && NoEmpty(rs[1..]);
      if rs[0].offs != [] && !NoEmpty(rs[1..]) {
        assert ([rs[0]] + LongRelsOf(more).value.0)[1..] == LongRelsOf(more).value.0;
      }
    }
  }

  lemma EndOfLongRels(rest: seq<byte>)
    ensures LongRelsOf(LongBytes(0) + rest) == Some(([], rest))
  {
    hide LongOf, LongBytes;
    LongBack(0, rest);
  }

  // ----- word relocations -----

  ghost predicate WordRelFits(r: Rel) { r.hunk < 0x1_0000 && |r.offs| < 0x1_0000 && AreWords(r.offs) }

  ghost predicate WordRelsFit(rs: seq<Rel>) { forall i :: 0 <= i < |rs| ==> WordRelFits(rs[i]) }

  function PutWordRel(r: Rel): seq<byte>
    requires WordRelFits(r)
  {
    WordBytes(|r.offs|) + WordBytes(r.hunk) + PutWords(r.offs)
  }

  function PutWordRels(rs: seq<Rel>): seq<byte>
    requires WordRelsFit(rs)
  {
    if rs == [] then WordBytes(0) else PutWordRel(rs[0]) + PutWordRels(rs[1..])
  }

  /** Words of a table, the final zero included. */
  function NumWords(rs: seq<Rel>): nat {
    if rs == [] then 1 else 2 + |rs[0].offs| + NumWords(rs[1..])
  }

  function WordRelOf(s: seq<byte>): Parsed<Option<Rel>> {
    var num := WordOf(s);
    if num.None? then None
    else if num.value.0 == 0 then Some((None, num.value.1))
    else
      var hunk := WordOf(num.value.1);
      if hunk.None? then None else
        var offs := WordsOf(hunk.value.1, num.value.0);
        if offs.None? then None else Some((Some(Rel(hunk.value.0, offs.value.0)), offs.value.1))
  }

  lemma WordRelShrinks(s: seq<byte>)
    ensures WordRelOf(s).Some? ==> |WordRelOf(s).value.1| < |s|
  {
    var num := WordOf(s);
    if num.Some? && num.value.0 != 0 {
      var hunk := WordOf(num.value.1);
      if hunk.Some? { WordsShrink(hunk.value.1, num.value.0); }
    }
  }

  function WordRelsOf(s: seq<byte>): Parsed<seq<Rel>>
    decreases |s|
  {
    WordRelShrinks(s);
    var r := WordRelOf(s);
    if r.None? then None
    else if r.value.0.None? then Some(([], r.value.1))
    else Before([r.value.0.value], WordRelsOf(r.value.1))
  }

  /** The table and its padding to a long. */
  function PutWordTable(rs: seq<Rel>): seq<byte>
    requires WordRelsFit(rs)
  {
    PutWordRels(rs) + if NumWords(rs) % 2 == 1 then WordBytes(0) else []
  }

  function WordTableOf(s: seq<byte>): Parsed<seq<Rel>> {
    var r := WordRelsOf(s);
    if r.None? || NumWords(r.value.0) % 2 == 0 then r else
      var pad := WordOf(r.value.1);
      if pad.None? then None else Some((r.value.0, pad.value.1))
  }

  lemma WordRelBack(r: Rel, rest: seq<byte>)
    requires WordRelFits(r)
    ensures r.offs != [] ==> WordRelOf(PutWordRel(r) + rest) == Some((Some(r), rest))
    ensures r.offs == [] ==> WordRelOf(PutWordRel(r) + rest).Some? && WordRelOf(PutWordRel(r) + rest).value.0.None?
  {
    hide WordOf, WordBytes, WordsOf;
    var a, b, c := WordBytes(|r.offs|), WordBytes(r.hunk), PutWords(r.offs);
    assert PutWordRel(r) + rest == a + (b + (c + rest));
    WordBack(|r.offs|, b + (c + rest));
    WordBack(r.hunk, c + rest);
    WordsBack(r.offs, rest);
  }

  lemma {:induction false} WordRelsBack(rs: seq<Rel>, rest: seq<byte>)
    requires WordRelsFit(rs)
    ensures NoEmpty(rs) ==> WordRelsOf(PutWordRels(rs) + rest) == Some((rs, rest))
    ensures !NoEmpty(rs) ==>
      WordRelsOf(PutWordRels(rs) + rest).Some? && WordRelsOf(PutWordRels(rs) + rest).value.0 != rs
    decreases |rs|
  {
    hide WordOf, WordBytes, WordRelOf, PutWordRel;
    if rs == [] {
      EndOfWordRels(rest);
    } else {
      var more := PutWordRels(rs[1..]) + rest;
      assert PutWordRels(rs) + rest == PutWordRel(rs[0]) + more;
      WordRelBack(rs[0], more);
      WordRelsBack(rs[1..], rest);
      assert [rs[0]] + rs[1..] == rs;
      assert NoEmpty(rs) <==> rs[0].offs != [] && NoEmpty(rs[1..]);
      if rs[0].offs != [] && !NoEmpty(rs[1..]) {
        assert ([rs[0]] + WordRelsOf(more).value.0)[1..] == WordRelsOf(more).value.0;
      }
    }
  }

  lemma EndOfWordRels(rest: seq<byte>)
    ensures WordRelsOf(WordBytes(0) + rest) == Some(([], rest))
  {
    hide WordOf, WordBytes;
    WordBack(0, rest);
  }

  /** A word table comes back exactly when no hunk has an empty list of offsets, the padding included. */
  lemma WordTableBack(rs: seq<Rel>, rest: seq<byte>)
    requires WordRelsFit(rs)
    ensures NoEmpty(rs) ==> WordTableOf(PutWordTable(rs) + rest) == Some((rs, rest))
    ensures !NoEmpty(rs) ==>
      WordTableOf(PutWordTable(rs) + rest).None? || WordTableOf(PutWordTable(rs) + rest).value.0 != rs
  {
    hide WordOf, WordBytes, WordRelsOf, PutWordRels;
    if NumWords(rs) % 2 == 1 {
      assert PutWordTable(rs) + rest == PutWordRels(rs) + (WordBytes(0) + rest);
      WordRelsBack(rs, WordBytes(0) + rest);
      WordBack(0, rest);
    } else {
      assert PutWordTable(rs) + rest == PutWordRels(rs) + rest;
      WordRelsBack(rs, rest);
    }
  }

  // ----- symbols -----

  ghost predicate SymsFit(syms: seq<Sym>) {
    forall i :: 0 <= i < |syms| ==> |syms[i].name| < 0x400_0000 - 3 && syms[i].off < 0x1_0000_0000
  }

  function PutSyms(syms: seq<Sym>): seq<byte>
    requires SymsFit(syms)
  {
    if syms == [] then LongBytes(0) else PutName(syms[0].name) + LongBytes(syms[0].off) + PutSyms(syms[1..])
  }

  function SymsOf(s: seq<byte>): Parsed<seq<Sym>>
    decreases |s|
  {
    var n := NameOf(s);
    if n.None? then None
    else if n.value.0.0 == 0 then Some(([], n.value.1))
    else
      var off := LongOf(n.value.1);
      if off.None? then None else Before([Sym(n.value.0.1, off.value.0)], SymsOf(off.value.1))
  }

  ghost predicate GoodNames(syms: seq<Sym>) { forall i :: 0 <= i < |syms| ==> GoodName(syms[i].name) }

  /** A symbol table comes back exactly when no name is empty or has a NUL in it. */
  lemma {:induction false} SymsBack(syms: seq<Sym>, rest: seq<byte>)
    requires SymsFit(syms)
    ensures GoodNames(syms) ==> SymsOf(PutSyms(syms) + rest) == Some((syms, rest))
    ensures !GoodNames(syms) ==> SymsOf(PutSyms(syms) + rest).None? || SymsOf(PutSyms(syms) + rest).value.0 != syms
    decreases |syms|
  {
    hide LongOf, LongBytes, NameOf, PutName, FindNul;
    if syms == [] {
      EndOfSyms(rest);
    } else {
      var name, more := syms[0].name, PutSyms(syms[1..]) + rest;
      var tail := LongBytes(syms[0].off) + more;
      assert PutSyms(syms) + rest == PutName(name) + tail;
      LongBack(syms[0].off, more);
      SymsBack(syms[1..], rest);
      assert [syms[0]] + syms[1..] == syms;
      assert GoodNames(syms) <==> GoodName(name) && GoodNames(syms[1..]);
      if GoodName(name) {
        NameBack(name, tail);
        if SymsOf(more).Some? { assert ([syms[0]] + SymsOf(more).value.0)[1..] == SymsOf(more).value.0; }
      } else if name == [] || name[0] == 0 {
        NameEnds(name, tail);
      } else {
        SomeNul(name);
        NameCut(name, tail);
        if SymsOf(more).Some? { assert SymsOf(PutSyms(syms) + rest).value.0[0].name != name; }
      }
    }
  }

  lemma SomeNul(name: seq<byte>)
    requires 0 < |name| < 0x400_0000 - 3 && !GoodName(name)
    ensures FindNul(name) < |name|
  {
  }

  lemma EndOfSyms(rest: seq<byte>)
    ensures SymsOf(LongBytes(0) + rest) == Some(([], rest))
  {
    LongBack(0, rest);
    hide LongOf, LongBytes;
  }

  // ----- header -----

  ghost predicate NamesFit(names: seq<seq<byte>>) { forall i :: 0 <= i < |names| ==> |names[i]| < 0x400_0000 - 3 }

  ghost predicate AllGoodNames(names: seq<seq<byte>>) { forall i :: 0 <= i < |names| ==> GoodName(names[i]) }

  function PutNames(names: seq<seq<byte>>): seq<byte>
    requires NamesFit(names)
  {
    if names == [] then LongBytes(0) else PutName(names[0]) + PutNames(names[1..])
  }

  function NamesOf(s: seq<byte>): Parsed<seq<seq<byte>>>
    decreases |s|
  {
    var n := NameOf(s);
    if n.None? then None
    else if n.value.0.0 == 0 then Some(([], n.value.1))
    else Before([n.value.0.1], NamesOf(n.value.1))
  }

  lemma {:induction false} NamesBack(names: seq<seq<byte>>, rest: seq<byte>)
    requires NamesFit(names)
    ensures AllGoodNames(names) ==> NamesOf(PutNames(names) + rest) == Some((names, rest))
    ensures !AllGoodNames(names) ==>
      NamesOf(PutNames(names) + rest).None? || NamesOf(PutNames(names) + rest).value.0 != names
    decreases |names|
  {
    hide LongOf, LongBytes, NameOf, PutName, FindNul;
    if names == [] {
      EndOfNames(rest);
    } else {
      var name, more := names[0], PutNames(names[1..]) + rest;
      assert PutNames(names) + rest == PutName(name) + more;
      NamesBack(names[1..], rest);
      assert [name] + names[1..] == names;
      assert AllGoodNames(names) <==> GoodName(name) && AllGoodNames(names[1..]);
      if GoodName(name) {
        NameBack(name, more);
        if NamesOf(more).Some? { assert ([name] + NamesOf(more).value.0)[1..] == NamesOf(more).value.0; }
      } else if name == [] || name[0] == 0 {
        NameEnds(name, more);
      } else {
        SomeNul(name);
        NameCut(name, more);
        if NamesOf(more).Some? { assert NamesOf(PutNames(names) + rest).value.0[0] != name; }
      }
    }
  }

  lemma EndOfNames(rest: seq<byte>)
    ensures NamesOf(LongBytes(0) + rest) == Some(([], rest))
  {
    LongBack(0, rest);
    hide LongOf, LongBytes;
  }

  /** Hunk sizes without the memory flags in the upper bits. */
  function Masked(vs: seq<nat>): (r: seq<nat>)
    ensures |r| == |vs| && forall i :: 0 <= i < |vs| ==> r[i] == vs[i] % 0x4000_0000
  {
    seq(|vs|, i requires 0 <= i < |vs| => vs[i] % 0x4000_0000)
  }

  function NumHunks(first: nat, last: nat): nat { if last + 1 < first then 0 else last + 1 - first }

  function PutHeader(b: Block): seq<byte>
    requires b.Header? && Fits(b)
  {
    PutNames(b.names) + (LongBytes(b.tableSize) + (LongBytes(b.first) + (LongBytes(b.last) + PutLongs(b.table))))
  }

  function HeaderOf(s: seq<byte>): Parsed<Block> {
    var names := NamesOf(s);
    if names.None? then None else
      var three := LongsOf(names.value.1, 3);
      if three.None? then None else
        var t := three.value.0;
        var table := LongsOf(three.value.1, NumHunks(Nth(t, 1), Nth(t, 2)));
        if table.None? then None else
          Some((Header(names.value.0, Nth(t, 0), Nth(t, 1), Nth(t, 2), Masked(table.value.0)), table.value.1))
  }

  /** The i-th long read; a shorter list cannot happen. */
  function Nth(t: seq<nat>, i: nat): nat { if i < |t| then t[i] else 0 }

  /** A header comes back exactly when its names do and its table has one size, below 2^30, for each hunk. */
  lemma HeaderBack(b: Block, rest: seq<byte>)
    requires b.Header? && Fits(b)
    ensures Good(b) ==> HeaderOf(PutHeader(b) + rest) == Some((b, rest))
    ensures !Good(b) ==> HeaderOf(PutHeader(b) + rest).None? || HeaderOf(PutHeader(b) + rest).value.0 != b
  {
    hide LongOf, LongBytes, NamesOf, PutNames, PutLongs, LongsOf;
    var three := [b.tableSize, b.first, b.last];
    var tail := PutLongs(b.table) + rest;
    ThreeLongs(b.tableSize, b.first, b.last);
    assert PutHeader(b) + rest == PutNames(b.names) + (PutLongs(three) + tail);
    NamesBack(b.names, PutLongs(three) + tail);
    if AllGoodNames(b.names) {
      LongsBack(three, tail);
      LongsBack(b.table, rest);
      LongsCount(tail, NumHunks(b.first, b.last));
      assert Masked(b.table) == b.table <==> forall i :: 0 <= i < |b.table| ==> b.table[i] < 0x4000_0000;
    }
  }

  lemma {:induction false} LongsCount(s: seq<byte>, n: nat)
    ensures LongsOf(s, n).Some? ==> |LongsOf(s, n).value.0| == n
    decreases n
  {
    hide LongOf;
    if n > 0 && LongOf(s).Some? { LongsCount(LongOf(s).value.1, n - 1); }
  }

  lemma ThreeLongs(a: long, b: long, c: long)
    ensures PutLongs([a, b, c]) == LongBytes(a) + (LongBytes(b) + (LongBytes(c) + []))
  {
    hide LongBytes;
    assert [a, b, c][1..] == [b, c] && [b, c][1..] == [c] && [c][1..] == [];
    assert PutLongs([]) == [];
    assert PutLongs([c]) == LongBytes(c) + [];
    assert PutLongs([b, c]) == LongBytes(b) + PutLongs([c]);
  }

  // ----- blocks and files -----

  /** Every value fits its field. */
  ghost predicate Fits(b: Block) {
    match b
    case Header(names, tableSize, first, last, table) =>
      NamesFit(names) && tableSize < 0x1_0000_0000 && first < 0x1_0000_0000 && last < 0x1_0000_0000 && AreLongs(table)
    case Segment(id, _, size) => (id == HUNK_CODE || id == HUNK_DATA) && size < 0x1_0000_0000
    case RelocLong(rs) => LongRelsFit(rs)
    case RelocWord(rs) => WordRelsFit(rs)
    case Symbols(syms) => SymsFit(syms)
    case End => true
  }

  /** Blocks that come back as they were. */
  ghost predicate Good(b: Block) {
    match b
    case Header(names, _, first, last, table) =>
      AllGoodNames(names) && |table| == NumHunks(first, last) && forall i :: 0 <= i < |table| ==> table[i] < 0x4000_0000
    case Segment(_, data, size) => |data| == 4 * size
    case RelocLong(rs) => NoEmpty(rs)
    case RelocWord(rs) => NoEmpty(rs)
    case Symbols(syms) => GoodNames(syms)
    case End => true
  }

  /** A segment at the end of the file may lack bytes its size promises: the short read goes unnoticed. */
  ghost predicate Comes(b: Block, atEnd: bool) {
    Good(b) || (atEnd && b.Segment? && |b.data| < 4 * b.sizeLongs)
  }

  function PutBody(b: Block): seq<byte>
    requires Fits(b)
  {
    match b
    case Header(_, _, _, _, _) => PutHeader(b)
    case Segment(_, data, size) => LongBytes(size) + data
    case RelocLong(rs) => PutLongRels(rs)
    case RelocWord(rs) => PutWordTable(rs)
    case Symbols(syms) => PutSyms(syms)
    case End => []
  }

  function SegmentOf(id: nat, s: seq<byte>): Parsed<Block> {
    var size := LongOf(s);
    if size.None? then None
    else
      var (n, more) := size.value;
      Some((Segment(id, Taken(more, 4 * n), n), Dropped(more, 4 * n)))
  }

  function Lifted<T>(p: Parsed<T>, f: T -> Block): Outcome<Block> {
    if p.None? then Err(ParseError) else Ok(f(p.value.0), p.value.1)
  }

  function BodyOf(id: nat, s: seq<byte>): Outcome<Block> {
    if id == HUNK_HEADER then Lifted(HeaderOf(s), b => b)
    else if id == HUNK_CODE || id == HUNK_DATA then Lifted(SegmentOf(id, s), b => b)
    else if id == HUNK_ABSRELOC32 then Lifted(LongRelsOf(s), rs => RelocLong(rs))
    else if id == HUNK_RELOC32SHORT then Lifted(WordTableOf(s), rs => RelocWord(rs))
    else if id == HUNK_SYMBOL then Lifted(SymsOf(s), syms => Symbols(syms))
    else if id == HUNK_END then Ok(End, s)
    else Err(OtherBlock)
  }

  lemma SegmentBack(id: nat, data: seq<byte>, size: long, rest: seq<byte>)
    ensures var b := SegmentOf(id, LongBytes(size) + data + rest);
      if Comes(Segment(id, data, size), rest == []) then b == Some((Segment(id, data, size), rest))
      else b.Some? && b.value.0 != Segment(id, data, size)
  {
    hide LongOf, LongBytes;
    assert LongBytes(size) + data + rest == LongBytes(size) + (data + rest);
    LongBack(size, data + rest);
    if |data| == 4 * size { assert (data + rest)[..|data|] == data && (data + rest)[|data|..] == rest; }
    if rest == [] { assert data + rest == data; }
  }

  ghost predicate Yields<T>(o: Outcome<T>, value: T) { o.Ok? && o.value == value }

  lemma BodyBack(b: Block, rest: seq<byte>)
    requires Fits(b)
    ensures Comes(b, rest == []) ==> BodyOf(BlkId(b), PutBody(b) + rest) == Ok(b, rest)
    ensures !Comes(b, rest == []) ==> !Yields(BodyOf(BlkId(b), PutBody(b) + rest), b)
  {
    hide LongBytes, HeaderOf, PutHeader, SegmentOf, LongRelsOf, PutLongRels, WordTableOf, PutWordTable, SymsOf, PutSyms;
    hide NoEmpty, GoodNames, LongRelsFit, WordRelsFit, SymsFit;
    match b
    case Header(_, _, _, _, _) => HeaderBack(b, rest);
    case Segment(id, data, size) => SegmentBack(id, data, size, rest);
    case RelocLong(rs) => LongRelsBack(rs, rest);
    case RelocWord(rs) => WordTableBack(rs, rest);
    case Symbols(syms) => SymsBack(syms, rest);
    case End => assert [] + rest == rest;
  }

  /** In load modules the short relocations go by the id 1015. */
  function IdOut(id: nat, loadSeg: bool): nat { if loadSeg && id == HUNK_RELOC32SHORT then HUNK_DREL32 else id }

  function IdIn(id: nat, loadSeg: bool): nat { if loadSeg && id == HUNK_DREL32 then HUNK_RELOC32SHORT else id }

  function PutBlock(b: Block, loadSeg: bool): seq<byte>
    requires Fits(b)
  {
    LongBytes(IdOut(BlkId(b), loadSeg)) + PutBody(b)
  }

  function PutFile(blocks: seq<Block>, loadSeg: bool): seq<byte>
    requires forall i :: 0 <= i < |blocks| ==> Fits(blocks[i])
  {
    if blocks == [] then [] else PutBlock(blocks[0], loadSeg) + PutFile(blocks[1..], loadSeg)
  }

  /** One block: the tag without memory flags, the id, the body. */
  function BlockOf(s: seq<byte>, loadSeg: bool): Outcome<Block>
    requires s != []
  {
    var tag := LongOf(s);
    if tag.None? then Err(ParseError) else BodyOf(IdIn(tag.value.0 % 0x1_0000, loadSeg), tag.value.1)
  }

  lemma NameShrinks(s: seq<byte>)
    ensures NameOf(s).Some? ==> |NameOf(s).value.1| < |s|
  {
  }

  lemma {:induction false} NamesShrink(s: seq<byte>)
    ensures NamesOf(s).Some? ==> |NamesOf(s).value.1| <= |s|
    decreases |s|
  {
    hide NameOf;
    NameShrinks(s);
    if NameOf(s).Some? && NameOf(s).value.0.0 != 0 { NamesShrink(NameOf(s).value.1); }
  }

  lemma {:induction false} SymsShrink(s: seq<byte>)
    ensures SymsOf(s).Some? ==> |SymsOf(s).value.1| <= |s|
    decreases |s|
  {
    hide NameOf;
    NameShrinks(s);
    if NameOf(s).Some? && NameOf(s).value.0.0 != 0 {
      var off := LongOf(NameOf(s).value.1);
      if off.Some? { SymsShrink(off.value.1); }
    }
  }

  lemma {:induction false} LongRelsShrink(s: seq<byte>)
    ensures LongRelsOf(s).Some? ==> |LongRelsOf(s).value.1| <= |s|
    decreases |s|
  {
    hide LongRelOf;
    LongRelShrinks(s);
    if LongRelOf(s).Some? && LongRelOf(s).value.0.Some? { LongRelsShrink(LongRelOf(s).value.1); }
  }

  lemma {:induction false} WordRelsShrink(s: seq<byte>)
    ensures WordRelsOf(s).Some? ==> |WordRelsOf(s).value.1| <= |s|
    decreases |s|
  {
    hide WordRelOf;
    WordRelShrinks(s);
    if WordRelOf(s).Some? && WordRelOf(s).value.0.Some? { WordRelsShrink(WordRelOf(s).value.1); }
  }

  lemma HeaderShrinks(s: seq<byte>)
    ensures HeaderOf(s).Some? ==> |HeaderOf(s).value.1| <= |s|
  {
    hide NamesOf, LongsOf;
    NamesShrink(s);
    if NamesOf(s).Some? {
      var s1 := NamesOf(s).value.1;
      LongsShrink(s1, 3);
      if LongsOf(s1, 3).Some? {
        var (t, s2) := LongsOf(s1, 3).value;
        LongsShrink(s2, NumHunks(Nth(t, 1), Nth(t, 2)));
      }
    }
  }

  /** Every block takes at least its tag from the stream, so reading a file ends. */
  lemma BlockShrinks(s: seq<byte>, loadSeg: bool)
    requires s != []
    ensures BlockOf(s, loadSeg).Ok? ==> |BlockOf(s, loadSeg).rest| < |s|
  {
    hide HeaderOf, LongRelsOf, WordRelsOf, SymsOf;
    if LongOf(s).Some? {
      var r := LongOf(s).value.1;
      HeaderShrinks(r);
      LongRelsShrink(r);
      WordRelsShrink(r);
      SymsShrink(r);
    }
  }

  function FileOf(s: seq<byte>, loadSeg: bool): Outcome<seq<Block>>
    decreases |s|
  {
    if s == [] then Ok([], []) else
      var b := BlockOf(s, loadSeg);
      if b.Err? then Err(b.error) else
        BlockShrinks(s, loadSeg);
        match FileOf(b.rest, loadSeg)
        case Err(e) => Err(e)
        case Ok(bs, rest) => Ok([b.value] + bs, rest)
  }

  /** Writing for a load module must be read as one; otherwise the flags do not matter. */
  predicate FlagsAgree(b: Block, written: bool, read: bool) { written && b.RelocWord? ==> read }

  /** One block comes back exactly when its values survive and it is read in the mode it was written in. */
  lemma BlockBack(b: Block, rest: seq<byte>, written: bool, read: bool)
    requires Fits(b)
    ensures BlkId(b) < 0x1_0000
    ensures FlagsAgree(b, written, read) && Comes(b, rest == []) ==>
      BlockOf(PutBlock(b, written) + rest, read) == Ok(b, rest)
    ensures FlagsAgree(b, written, read) && !Comes(b, rest == []) ==>
      !Yields(BlockOf(PutBlock(b, written) + rest, read), b)
    ensures !FlagsAgree(b, written, read) ==> BlockOf(PutBlock(b, written) + rest, read) == Err(OtherBlock)
  {
    hide LongOf, LongBytes, BodyOf, PutBody, Comes;
    var id := IdOut(BlkId(b), written);
    assert PutBlock(b, written) + rest == LongBytes(id) + (PutBody(b) + rest);
    LongBack(id, PutBody(b) + rest);
    BodyBack(b, rest);
    OldId(PutBody(b) + rest);
  }

  /** Outside load modules 1015 is another kind of block. */
  lemma OldId(s: seq<byte>)
    ensures BodyOf(HUNK_DREL32, s) == Err(OtherBlock)
  {
  }

  ghost predicate AllCome(blocks: seq<Block>, written: bool, read: bool) {
    forall i :: 0 <= i < |blocks| ==> Comes(blocks[i], i == |blocks| - 1) && FlagsAgree(blocks[i], written, read)
  }

  /** A file comes back exactly when each of its blocks does. */
  lemma {:induction false} FileBack(blocks: seq<Block>, written: bool, read: bool)
    requires forall i :: 0 <= i < |blocks| ==> Fits(blocks[i])
    ensures AllCome(blocks, written, read) ==> FileOf(PutFile(blocks, written), read) == Ok(blocks, [])
    ensures !AllCome(blocks, written, read) ==> !Yields(FileOf(PutFile(blocks, written), read), blocks)
    decreases |blocks|
  {
    hide BlockOf, PutBlock, Fits, Comes, FlagsAgree, LongBytes;
    if blocks != [] {
      var more := PutFile(blocks[1..], written);
      BlockBack(blocks[0], more, written, read);
      FileBack(blocks[1..], written, read);
      TagThere(blocks[0], written);
      FirstTag(blocks[1..], written);
      assert [blocks[0]] + blocks[1..] == blocks;
      AllComeSplit(blocks, written, read);
      var b := BlockOf(PutFile(blocks, written), read);
      if b.Ok? && FileOf(b.rest, read).Ok? {
        var more := FileOf(b.rest, read).value;
        assert ([b.value] + more)[0] == b.value && ([b.value] + more)[1..] == more;
      }
    }
  }

  /** Blocks of the same kind. */
  predicate Alike(a: Block, b: Block) {
    && (a.Header? <==> b.Header?) && (a.Segment? <==> b.Segment?) && (a.RelocLong? <==> b.RelocLong?)
    && (a.RelocWord? <==> b.RelocWord?) && (a.Symbols? <==> b.Symbols?)
  }

  /** Where a file goes wrong: the first block that does not come back is read as another one of its kind, or
      reading fails. */
  lemma {:induction false} FirstWrong(blocks: seq<Block>, written: bool, read: bool) returns (i: nat)
    requires (forall i :: 0 <= i < |blocks| ==> Fits(blocks[i])) && !AllCome(blocks, written, read)
    ensures i < |blocks| && !(Comes(blocks[i], i == |blocks| - 1) && FlagsAgree(blocks[i], written, read))
    ensures var f := FileOf(PutFile(blocks, written), read);
      f.Ok? ==> i < |f.value| && f.value[..i] == blocks[..i]
    ensures var f := FileOf(PutFile(blocks, written), read);
      f.Ok? ==> f.value[i] != blocks[i] && Alike(f.value[i], blocks[i])
    decreases |blocks|
  {
    hide BlockOf, PutBlock, Fits, Comes, FlagsAgree, LongBytes, Alike;
    var more := blocks[1..];
    BlockBack(blocks[0], PutFile(more, written), written, read);
    TagThere(blocks[0], written);
    FirstTag(more, written);
    AllComeSplit(blocks, written, read);
    SameKind(blocks[0], PutFile(more, written), written, read);
    var b := BlockOf(PutFile(blocks, written), read);
    if Comes(blocks[0], |blocks| == 1) && FlagsAgree(blocks[0], written, read) {
      var k := FirstWrong(more, written, read);
      i := k + 1;
      assert blocks[i] == more[k] && blocks[..i] == [blocks[0]] + more[..k];
      if FileOf(PutFile(more, written), read).Ok? {
        var v := FileOf(PutFile(more, written), read).value;
        assert ([blocks[0]] + v)[..i] == [blocks[0]] + v[..k] && ([blocks[0]] + v)[i] == v[k];
      }
    } else {
      i := 0;
      if b.Ok? && FileOf(b.rest, read).Ok? {
        assert ([b.value] + FileOf(b.rest, read).value)[0] == b.value;
      }
    }
  }

  lemma SameKind(b: Block, rest: seq<byte>, written: bool, read: bool)
    requires Fits(b)
    ensures var r := BlockOf(PutBlock(b, written) + rest, read); r.Ok? ==> Alike(r.value, b)
  {
    hide LongOf, LongBytes, BodyOf, PutBody;
    var id := IdOut(BlkId(b), written);
    assert PutBlock(b, written) + rest == LongBytes(id) + (PutBody(b) + rest);
    LongBack(id, PutBody(b) + rest);
    OldId(PutBody(b) + rest);
    KindOf(b, PutBody(b) + rest);
  }

  lemma KindOf(b: Block, s: seq<byte>)
    requires Fits(b)
    ensures BodyOf(BlkId(b), s).Ok? ==> Alike(BodyOf(BlkId(b), s).value, b)
  {
    hide LongOf, LongRelsOf, WordTableOf, SymsOf, LongsOf, NamesOf;
  }

  /** Sizes in a header that was read have no memory flags. */
  lemma TableMasked(id: nat, s: seq<byte>)
    ensures BodyOf(id, s).Ok? && BodyOf(id, s).value.Header? ==>
      forall i :: 0 <= i < |BodyOf(id, s).value.table| ==> BodyOf(id, s).value.table[i] < 0x4000_0000
  {
    hide LongOf, LongRelsOf, WordTableOf, SymsOf, LongsOf, NamesOf;
  }

  lemma FirstTag(blocks: seq<Block>, written: bool)
    requires forall i :: 0 <= i < |blocks| ==> Fits(blocks[i])
    ensures PutFile(blocks, written) == [] <==> blocks == []
  {
    hide PutBlock;
    if blocks != [] { TagThere(blocks[0], written); }
  }

  lemma AllComeSplit(blocks: seq<Block>, written: bool, read: bool)
    requires blocks != []
    ensures AllCome(blocks, written, read) <==>
      Comes(blocks[0], |blocks| == 1) && FlagsAgree(blocks[0], written, read) && AllCome(blocks[1..], written, read)
  {
    hide Comes, FlagsAgree;
    var more := blocks[1..];
    if Comes(blocks[0], |blocks| == 1) && FlagsAgree(blocks[0], written, read) && AllCome(more, written, read) {
      forall i | 0 <= i < |blocks| ensures Comes(blocks[i], i == |blocks| - 1) && FlagsAgree(blocks[i], written, read) {
        if i > 0 { assert blocks[i] == more[i - 1]; }
      }
    }
    if AllCome(blocks, written, read) {
      forall i | 0 <= i < |more| ensures Comes(more[i], i == |more| - 1) && FlagsAgree(more[i], written, read) {
        assert more[i] == blocks[i + 1];
      }
    }
  }

  lemma TagThere(b: Block, written: bool)
    requires Fits(b)
    ensures |PutBlock(b, written)| >= 4
  {
    hide PutBody;
  }
}
