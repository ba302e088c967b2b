/** `Relocate`: put the segments of a binary image to addresses, one by one or in one block. */
module Relocation {
  import opened Bytes

  // ----- binary images -----

  datatype Reloc = Reloc(offset: nat, pcRel: bool, addend: int)

  /** The relocations of a segment towards segment `to`. */
  datatype Relocs = Relocs(to: nat, entries: seq<Reloc>)

  /** A segment; data shorter than the size (or none) leaves zeros, longer data go beyond the size. */
  datatype Segment = Segment(size: nat, data: seq<byte>, relocs: seq<Relocs>)

  /** Relocations point to segments of the image. */
  ghost predicate WellFormed(segs: seq<Segment>) {
    forall i :: 0 <= i < |segs| ==> SegOk(segs, i)
  }

  ghost predicate SegOk(segs: seq<Segment>, i: nat)
    requires i < |segs|
  {
    forall k :: 0 <= k < |segs[i].relocs| ==> segs[i].relocs[k].to < |segs|
  }

  ghost predicate DataFits(segs: seq<Segment>) { forall i :: 0 <= i < |segs| ==> |segs[i].data| <= segs[i].size }

  /** `get_total_size`. */
  function TotalSize(segs: seq<Segment>, padding: nat, n: nat): nat
    requires n <= |segs|
  {
    if n == 0 then 0 else TotalSize(segs, padding, n - 1) + segs[n - 1].size + padding
  }

  /** `get_seq_addrs`: segment `i` comes after the padded segments before it. */
  function SeqAddrs(segs: seq<Segment>, base: int, padding: nat): (r: seq<int>)
    ensures |r| == |segs| && forall i :: 0 <= i < |segs| ==> r[i] == base + TotalSize(segs, padding, i)
  {
    seq(|segs|, i requires 0 <= i < |segs| => base + TotalSize(segs, padding, i))
  }

  method GetSeqAddrs(segs: seq<Segment>, base: int, padding: nat) returns (addrs: seq<int>)
    ensures addrs == SeqAddrs(segs, base, padding)
  {
    hide TotalSize;
    SizeNone(segs, padding);
    addrs := [];
    var addr := base;
    for i := 0 to |segs|
      invariant |addrs| == i && addr == base + TotalSize(segs, padding, i)
      invariant forall k :: 0 <= k < i ==> addrs[k] == base + TotalSize(segs, padding, k)
    {
      SizeNext(segs, padding, i);
      addrs := addrs + [addr];
      addr := addr + segs[i].size + padding;
    }
  }

  method GetTotalSize(segs: seq<Segment>, padding: nat) returns (total: nat)
    ensures total == TotalSize(segs, padding, |segs|)
  {
    total := 0;
    for i := 0 to |segs|
      invariant total == TotalSize(segs, padding, i)
    {
      total := total + segs[i].size + padding;
    }
  }

  // ----- one relocation -----

  /** `struct.unpack(">i")` and `struct.pack(">i")`, the latter for values that fit. */
  function Signed(v: long): int { if v >= 0x8000_0000 then v - 0x1_0000_0000 else v }

  predicate FitsSigned(v: int) { -0x8000_0000 <= v < 0x8000_0000 }

  function Unsigned(v: int): long
    requires FitsSigned(v)
  {
    if v < 0 then v + 0x1_0000_0000 else v
  }

  lemma SignedBack(v: int)
    requires FitsSigned(v)
    ensures Signed(Unsigned(v)) == v
  {
  }

  /** The address that goes to `offset`: target plus the stored value plus the addend; for a PC-relative
      entry the distance from the place it is stored at. */
  function Address(r: Reloc, stored: int, toAddr: int, myAddr: int, offset: int): int {
    if r.pcRel then stored + r.addend + toAddr - myAddr - offset else toAddr + (stored + r.addend)
  }

  /** `_reloc`; None where the code raises: outside the data, or an address that does not fit. */
  function RelocOne(data: seq<byte>, r: Reloc, myAddr: int, toAddr: int, extra: nat): (d: Option<seq<byte>>)
    ensures d.Some? ==> |d.value| == |data|
  {
    var off := r.offset + extra;
    if off + 4 > |data| then None else
      var addr := Address(r, Signed(LongAt(data, off)), toAddr, myAddr, off);
      if FitsSigned(addr) then Some(PutLong(data, off, Unsigned(addr))) else None
  }

  function RelocList(data: seq<byte>, rs: seq<Reloc>, n: nat, myAddr: int, toAddr: int,
          extra: nat): (d: Option<seq<byte>>)
    requires n <= |rs|
    ensures d.Some? ==> |d.value| == |data|
  {
    if n == 0 then Some(data) else
      var d := RelocList(data, rs, n - 1, myAddr, toAddr, extra);
      if d.None? then None else RelocOne(d.value, rs[n - 1], myAddr, toAddr, extra)
  }

  /** `_reloc_data`. */
  function RelocData(data: seq<byte>, relocs: seq<Relocs>, n: nat, addrs: seq<int>, id: nat,
          extra: nat): (d: Option<seq<byte>>)
    requires n <= |relocs| && id < |addrs| && forall k :: 0 <= k < |relocs| ==> relocs[k].to < |addrs|
    ensures d.Some? ==> |d.value| == |data|
  {
    if n == 0 then Some(data) else
      var d := RelocData(data, relocs, n - 1, addrs, id, extra);
      var rl := relocs[n - 1];
      if d.None? then None else RelocList(d.value, rl.entries, |rl.entries|, addrs[id], addrs[rl.to], extra)
  }

  // ----- segment by segment -----

  /** `data[offset:offset + n] = src`, which lengthens data that end before. */
  function Pasted(data: seq<byte>, offset: nat, src: seq<byte>): (r: seq<byte>)
    requires offset <= |data|
    ensures |r| == if offset + |src| <= |data| then |data| else offset + |src|
  {
    data[..offset] + src + if offset + |src| <= |data| then data[offset + |src|..] else []
  }

  function SegBytes(s: Segment): (b: seq<byte>)
    ensures |s.data| <= s.size ==> |b| == s.size
    ensures b == s.data + ZeroBytes(if |s.data| < s.size then s.size - |s.data| else 0)
  {
    Pasted(ZeroBytes(s.size), 0, s.data)
  }

  function RelocSeg(segs: seq<Segment>, addrs: seq<int>, i: nat): (d: Option<seq<byte>>)
    requires WellFormed(segs) && i < |segs| && |addrs| == |segs|
    ensures d.Some? ==> |d.value| == |SegBytes(segs[i])|
  {
    assert SegOk(segs, i);
    RelocData(SegBytes(segs[i]), segs[i].relocs, |segs[i].relocs|, addrs, i, 0)
  }

  /** `relocate`: the first `n` segments. */
  function RelocEach(segs: seq<Segment>, addrs: seq<int>, n: nat): (d: Option<seq<seq<byte>>>)
    requires WellFormed(segs) && n <= |segs| && |addrs| == |segs|
    ensures d.Some? ==> |d.value| == n && forall i :: 0 <= i < n ==> |d.value[i]| == |SegBytes(segs[i])|
  {
    if n == 0 then Some([]) else
      var d := RelocEach(segs, addrs, n - 1);
      var s := RelocSeg(segs, addrs, n - 1);
      if d.None? || s.None? then None else Some(d.value + [s.value])
  }

  /** The relocated segments behind each other, each followed by the padding. */
  function Padded(datas: seq<seq<byte>>, padding: nat, n: nat): seq<byte>
    requires n <= |datas|
  {
    if n == 0 then [] else Padded(datas, padding, n - 1) + datas[n - 1] + ZeroBytes(padding)
  }

  // ----- in one block -----

  /** `relocate_one_block` after `n` segments. */
  function OneBlock(segs: seq<Segment>, addrs: seq<int>, padding: nat, n: nat): (d: Option<seq<byte>>)
    requires WellFormed(segs) && n <= |segs| && |addrs| == |segs|
    ensures d.Some? ==> |d.value| >= TotalSize(segs, padding, |segs|)
    ensures d.Some? && DataFits(segs) ==> |d.value| == TotalSize(segs, padding, |segs|)
  {
    if n == 0 then Some(ZeroBytes(TotalSize(segs, padding, |segs|))) else
      var d := OneBlock(segs, addrs, padding, n - 1);
      if d.None? then None else
        assert SegOk(segs, n - 1);
        SizeGrows(segs, padding, n, |segs|);
        var off := TotalSize(segs, padding, n - 1);
        var s := segs[n - 1];
        SizeNext(segs, padding, n - 1);
        RelocData(Pasted(d.value, off, s.data), s.relocs, |s.relocs|, addrs, n - 1, off)
  }

  /** What the segments from `n` on and their padding take. */
  function SizeLeft(segs: seq<Segment>, padding: nat, n: nat): nat
    requires n <= |segs|
  {
    SizeGrows(segs, padding, n, |segs|);
    TotalSize(segs, padding, |segs|) - TotalSize(segs, padding, n)
  }

  lemma {:induction false} SizeGrows(segs: seq<Segment>, padding: nat, m: nat, n: nat)
    requires m <= n <= |segs|
    ensures TotalSize(segs, padding, m) <= TotalSize(segs, padding, n)
    decreases n
  {
    if m < n { SizeGrows(segs, padding, m, n - 1); }
  }

  /** Relocations the two forms treat alike: inside their segment, and absolute unless the segment is the
      first in the block. */
  ghost predicate Comparable(s: Segment, extra: nat) {
    forall k :: 0 <= k < |s.relocs| ==> EntriesOk(s.relocs[k].entries, s.size, extra)
  }

  ghost predicate EntriesOk(rs: seq<Reloc>, size: nat, extra: nat) {
    forall j :: 0 <= j < |rs| ==> rs[j].offset + 4 <= size && (extra == 0 || !rs[j].pcRel)
  }

  /** What came out inside a block is what came out alone, between the same neighbours. */
  ghost predicate Embeds(pre: seq<byte>, alone: Option<seq<byte>>, post: seq<byte>, inside: Option<seq<byte>>) {
    if alone.None? then inside.None? else inside == Some(pre + alone.value + post)
  }

  /** An entry is relocated inside a block as if its segment stood alone exactly when it is absolute, or
      nothing stands in front, or both fail. */
  lemma EmbeddedOne(pre: seq<byte>, mid: seq<byte>, post: seq<byte>, r: Reloc, myAddr: int, toAddr: int)
    requires r.offset + 4 <= |mid|
    ensures var alone := RelocOne(mid, r, myAddr, toAddr, 0);
      var inside := RelocOne(pre + mid + post, r, myAddr, toAddr, |pre|);
      Embeds(pre, alone, post, inside) <==> !r.pcRel || |pre| == 0 || (alone.None? && inside.None?)
  {
    hide LongAt, PutLong, FitsSigned, Unsigned, Signed;
    var off, stored := r.offset, Signed(LongAt(mid, r.offset));
    var a, b := Address(r, stored, toAddr, myAddr, off), Address(r, stored, toAddr, myAddr, off + |pre|);
    OneInside(pre, mid, post, r, myAddr, toAddr);
    if FitsSigned(a) && FitsSigned(b) {
      if pre + PutLong(mid, off, Unsigned(a)) + post == pre + PutLong(mid, off, Unsigned(b)) + post {
        SameMiddle(pre, PutLong(mid, off, Unsigned(a)), PutLong(mid, off, Unsigned(b)), post);
        SignedBack(a);
        SignedBack(b);
      }
    }
  }

  lemma SameMiddle(pre: seq<byte>, a: seq<byte>, b: seq<byte>, post: seq<byte>)
    requires |a| == |b| && pre + a + post == pre + b + post
    ensures a == b
  {
    assert (pre + a + post)[|pre|..|pre| + |a|] == a && (pre + b + post)[|pre|..|pre| + |a|] == b;
  }

  /** The bytes an entry leaves inside a block: those of the segment with the address for its place in the
      block, which for a PC-relative entry is lower by what stands in front. */
  lemma OneInside(pre: seq<byte>, mid: seq<byte>, post: seq<byte>, r: Reloc, myAddr: int, toAddr: int)
    requires r.offset + 4 <= |mid|
    ensures var inside := RelocOne(pre + mid + post, r, myAddr, toAddr, |pre|);
      var addr := Address(r, Signed(LongAt(mid, r.offset)), toAddr, myAddr, r.offset) - if r.pcRel then |pre| else 0;
      inside == if FitsSigned(addr) then Some(pre + PutLong(mid, r.offset, Unsigned(addr)) + post) else None
  {
    hide LongAt, PutLong, FitsSigned, Unsigned, Signed;
    var all, off := pre + mid + post, r.offset;
    assert all[off + |pre|..off + |pre| + 4] == mid[off..off + 4];
    LongAtSame(all, off + |pre|, mid, off);
    var addr := Address(r, Signed(LongAt(mid, off)), toAddr, myAddr, off + |pre|);
    if FitsSigned(addr) { PutEmbedded(pre, mid, post, off, Unsigned(addr)); }
  }

  lemma PutEmbedded(pre: seq<byte>, mid: seq<byte>, post: seq<byte>, off: nat, v: long)
    requires off + 4 <= |mid|
    ensures PutLong(pre + mid + post, off + |pre|, v) == pre + PutLong(mid, off, v) + post
  {
    hide LongBytes;
    var b := LongBytes(v);
  }

  lemma {:induction false} EmbeddedList(pre: seq<byte>, mid: seq<byte>, post: seq<byte>, rs: seq<Reloc>, n: nat,
          myAddr: int, toAddr: int)
    requires n <= |rs| && EntriesOk(rs, |mid|, |pre|)
    ensures Embeds(pre, RelocList(mid, rs, n, myAddr, toAddr, 0), post,
      RelocList(pre + mid + post, rs, n, myAddr, toAddr, |pre|))
  {
    hide RelocOne;
    if n > 0 {
      EmbeddedList(pre, mid, post, rs, n - 1, myAddr, toAddr);
      var alone := RelocList(mid, rs, n - 1, myAddr, toAddr, 0);
      if alone.Some? { EmbeddedOne(pre, alone.value, post, rs[n - 1], myAddr, toAddr); }
    }
  }

  lemma {:induction false} EmbeddedData(pre: seq<byte>, mid: seq<byte>, post: seq<byte>, s: Segment, n: nat,
          addrs: seq<int>, id: nat)
    requires n <= |s.relocs| && id < |addrs| && (forall k :: 0 <= k < |s.relocs| ==> s.relocs[k].to < |addrs|)
    requires |mid| == s.size && Comparable(s, |pre|)
    ensures Embeds(pre, RelocData(mid, s.relocs, n, addrs, id, 0), post,
      RelocData(pre + mid + post, s.relocs, n, addrs, id, |pre|))
  {
    hide RelocList;
    if n > 0 {
      EmbeddedData(pre, mid, post, s, n - 1, addrs, id);
      var alone := RelocData(mid, s.relocs, n - 1, addrs, id, 0);
      var rl := s.relocs[n - 1];
      if alone.Some? { EmbeddedList(pre, alone.value, post, rl.entries, |rl.entries|, addrs[id], addrs[rl.to]); }
    }
  }

  ghost predicate AllComparable(segs: seq<Segment>, padding: nat) {
    forall i :: 0 <= i < |segs| ==> Comparable(segs[i], TotalSize(segs, padding, i))
  }

  lemma {:induction false} PaddedSize(segs: seq<Segment>, datas: seq<seq<byte>>, padding: nat, n: nat)
    requires n <= |datas| && n <= |segs| && forall i :: 0 <= i < n ==> |datas[i]| == segs[i].size
    ensures |Padded(datas, padding, n)| == TotalSize(segs, padding, n)
  {
    if n > 0 { PaddedSize(segs, datas, padding, n - 1); }
  }

  /** The block form refines the segment form: it succeeds on the same images and then is the relocated
      segments behind each other, with zeros for padding and for what is still to come. */
  lemma {:induction false} OneBlockIsConcat(segs: seq<Segment>, addrs: seq<int>, padding: nat, n: nat)
    requires WellFormed(segs) && DataFits(segs) && n <= |segs| && |addrs| == |segs| && AllComparable(segs, padding)
    ensures var each, one := RelocEach(segs, addrs, n), OneBlock(segs, addrs, padding, n);
      && TotalSize(segs, padding, n) <= TotalSize(segs, padding, |segs|)
      && (each.None? <==> one.None?)
      && (each.Some? ==> one == Some(Padded(each.value, padding, n) + ZeroBytes(SizeLeft(segs, padding, n))))
  {
    hide RelocData, RelocSeg, TotalSize;
    SizeNone(segs, padding);
    SizeGrows(segs, padding, n, |segs|);
    if n == 0 {
      var z := ZeroBytes(TotalSize(segs, padding, |segs|));
      assert RelocEach(segs, addrs, 0).value == [] && Padded(RelocEach(segs, addrs, 0).value, padding, 0) + z == z;
      assert OneBlock(segs, addrs, padding, 0) == Some(z);
    } else {
      OneBlockIsConcat(segs, addrs, padding, n - 1);
      var each := RelocEach(segs, addrs, n - 1);
      if each.Some? {
        NextSegment(segs, addrs, padding, n - 1, each.value);
      } else {
        NoneAfter(segs, addrs, padding, n);
      }
    }
  }

  lemma NoneAfter(segs: seq<Segment>, addrs: seq<int>, padding: nat, n: nat)
    requires WellFormed(segs) && 0 < n <= |segs| && |addrs| == |segs|
    requires RelocEach(segs, addrs, n - 1).None? && OneBlock(segs, addrs, padding, n - 1).None?
    ensures RelocEach(segs, addrs, n).None? && OneBlock(segs, addrs, padding, n).None?
  {
    hide RelocData, RelocSeg, TotalSize;
  }

  lemma {:induction false} PaddedPrefix(datas: seq<seq<byte>>, d: seq<byte>, padding: nat, n: nat)
    requires n <= |datas|
    ensures Padded(datas + [d], padding, n) == Padded(datas, padding, n)
  {
    if n > 0 { PaddedPrefix(datas, d, padding, n - 1); }
  }

  lemma NextSegment(segs: seq<Segment>, addrs: seq<int>, padding: nat, i: nat, datas: seq<seq<byte>>)
    requires WellFormed(segs) && DataFits(segs) && i < |segs| && |addrs| == |segs| && AllComparable(segs, padding)
    requires TotalSize(segs, padding, i + 1) <= TotalSize(segs, padding, |segs|)
    requires RelocEach(segs, addrs, i) == Some(datas)
    requires OneBlock(segs, addrs, padding, i)
      == Some(Padded(datas, padding, i) + ZeroBytes(SizeLeft(segs, padding, i)))
    ensures var each, one := RelocEach(segs, addrs, i + 1), OneBlock(segs, addrs, padding, i + 1);
      && (each.None? <==> one.None?)
      && (each.Some? ==> one == Some(Padded(each.value, padding, i + 1) + ZeroBytes(SizeLeft(segs, padding, i + 1))))
  {
    hide RelocData, TotalSize, Pasted, SegBytes, Comparable, LongBytes, PutLong;
    SizeNext(segs, padding, i);
    assert SegOk(segs, i);
    PaddedSize(segs, datas, padding, i);
    var s, off := segs[i], TotalSize(segs, padding, i);
    var pre, mid := Padded(datas, padding, i), SegBytes(s);
    var post := ZeroBytes(padding) + ZeroBytes(SizeLeft(segs, padding, i + 1));
    PasteBetween(pre, s, padding, SizeLeft(segs, padding, i + 1));
    EmbeddedData(pre, mid, post, s, |s.relocs|, addrs, i);
    var alone := RelocSeg(segs, addrs, i);
    if alone.Some? {
      PaddedPrefix(datas, alone.value, padding, i);
      Regroup(pre, alone.value, ZeroBytes(padding), ZeroBytes(SizeLeft(segs, padding, i + 1)));
    }
  }

  /** The data of a segment copied into the zeros behind the segments before it. */
  lemma PasteBetween(pre: seq<byte>, s: Segment, padding: nat, rest: nat)
    requires |s.data| <= s.size
    ensures Pasted(pre + ZeroBytes(s.size + padding + rest), |pre|, s.data)
      == pre + SegBytes(s) + (ZeroBytes(padding) + ZeroBytes(rest))
  {
  }

  lemma Regroup<T>(a: seq<T>, b: seq<T>, c: seq<T>, d: seq<T>)
    ensures a + b + (c + d) == a + b + c + d
  {
  }

  lemma SizeNone(segs: seq<Segment>, padding: nat)
    ensures TotalSize(segs, padding, 0) == 0
  {
  }

  lemma SizeNext(segs: seq<Segment>, padding: nat, i: nat)
    requires i < |segs|
    ensures TotalSize(segs, padding, i + 1) == TotalSize(segs, padding, i) + segs[i].size + padding
  {
  }

  // ----- what becomes of every byte -----

  /** Two's complement: the one number of this range that differs from `v` by a multiple of 2^32. */
  lemma SignedExact(v: long)
    ensures -0x8000_0000 <= Signed(v) < 0x8000_0000 && (v - Signed(v)) % 0x1_0000_0000 == 0
  {
  }

  /** Entry `j` of table `k`. */
  predicate HasEntry(s: Segment, k: int, j: int) { 0 <= k < |s.relocs| && 0 <= j < |s.relocs[k].entries| }

  predicate Apart(a: Reloc, b: Reloc) { a.offset + 4 <= b.offset || b.offset + 4 <= a.offset }

  /** No other entry of the segment overlaps this one. */
  ghost predicate Alone(s: Segment, k: nat, j: nat)
    requires HasEntry(s, k, j)
  {
    forall k', j' :: HasEntry(s, k', j') && (k' != k || j' != j) ==>
      Apart(s.relocs[k].entries[j], s.relocs[k'].entries[j'])
  }

  /** The number an entry is to have: the address of its target plus the stored number plus the addend, less the
      address of the entry itself when it is relative to that. */
  function Wanted(data: seq<byte>, r: Reloc, myAddr: int, toAddr: int, extra: nat): int
    requires r.offset + extra + 4 <= |data|
  {
    toAddr + Signed(LongAt(data, r.offset + extra)) + r.addend - if r.pcRel then myAddr + r.offset + extra else 0
  }

  /** Byte `p` belongs to no entry from `lo` up to `hi`. */
  ghost predicate Clear(rs: seq<Reloc>, lo: nat, hi: nat, extra: nat, p: nat)
    requires hi <= |rs|
  {
    forall j :: lo <= j < hi ==> p < rs[j].offset + extra || rs[j].offset + extra + 4 <= p
  }

  lemma OneExact(data: seq<byte>, r: Reloc, myAddr: int, toAddr: int, extra: nat)
    ensures var d := RelocOne(data, r, myAddr, toAddr, extra);
      && (d.Some? <==> r.offset + extra + 4 <= |data| && FitsSigned(Wanted(data, r, myAddr, toAddr, extra)))
      && (d.Some? ==> |d.value| == |data|
                      && Signed(LongAt(d.value, r.offset + extra)) == Wanted(data, r, myAddr, toAddr, extra))
      && (d.Some? ==> forall p :: 0 <= p < |data| && (p < r.offset + extra || r.offset + extra + 4 <= p) ==>
           d.value[p] == data[p])
  {
    hide LongAt, PutLong, FitsSigned, Unsigned, Signed;
    if r.offset + extra + 4 <= |data| && FitsSigned(Wanted(data, r, myAddr, toAddr, extra)) {
      SignedBack(Wanted(data, r, myAddr, toAddr, extra));
    }
  }

  lemma {:induction false} ListKeeps(data: seq<byte>, rs: seq<Reloc>, a: nat, n: nat, myAddr: int, toAddr: int,
          extra: nat, p: nat)
    requires a <= n <= |rs| && p < |data| && Clear(rs, a, n, extra, p)
    requires RelocList(data, rs, n, myAddr, toAddr, extra).Some?
    ensures var before := RelocList(data, rs, a, myAddr, toAddr, extra);
      before.Some? && RelocList(data, rs, n, myAddr, toAddr, extra).value[p] == before.value[p]
    decreases n
  {
    hide RelocOne;
    if a < n {
      OneExact(RelocList(data, rs, n - 1, myAddr, toAddr, extra).value, rs[n - 1], myAddr, toAddr, extra);
      ListKeeps(data, rs, a, n - 1, myAddr, toAddr, extra, p);
    }
  }

  /** Four bytes that stay are a number that stays. */
  lemma StoredStays(a: seq<byte>, b: seq<byte>, r: Reloc, myAddr: int, toAddr: int, extra: nat)
    requires |a| == |b| && r.offset + extra + 4 <= |a|
    requires forall p :: r.offset + extra <= p < r.offset + extra + 4 ==> a[p] == b[p]
    ensures LongAt(a, r.offset + extra) == LongAt(b, r.offset + extra)
    ensures Wanted(a, r, myAddr, toAddr, extra) == Wanted(b, r, myAddr, toAddr, extra)
  {
    hide Signed;
  }

  /** An entry that overlaps no other one of its table. */
  lemma ListEntry(data: seq<byte>, rs: seq<Reloc>, n: nat, myAddr: int, toAddr: int, extra: nat, j: nat)
    requires j < n <= |rs| && RelocList(data, rs, n, myAddr, toAddr, extra).Some?
    requires forall i :: 0 <= i < n && i != j ==> Apart(rs[j], rs[i])
    ensures rs[j].offset + extra + 4 <= |data|
    ensures Signed(LongAt(RelocList(data, rs, n, myAddr, toAddr, extra).value, rs[j].offset + extra))
      == Wanted(data, rs[j], myAddr, toAddr, extra)
  {
    hide RelocOne, LongAt, Signed;
    var off, out := rs[j].offset + extra, RelocList(data, rs, n, myAddr, toAddr, extra).value;
    ListDefined(data, rs, j + 1, n, myAddr, toAddr, extra);
    var was, now := RelocList(data, rs, j, myAddr, toAddr, extra).value,
      RelocList(data, rs, j + 1, myAddr, toAddr, extra).value;
    OneExact(was, rs[j], myAddr, toAddr, extra);
    ListSpan(data, rs, j, myAddr, toAddr, extra, n);
    StoredStays(was, data, rs[j], myAddr, toAddr, extra);
    StoredStays(out, now, rs[j], myAddr, toAddr, extra);
  }

  lemma {:induction false} ListDefined(data: seq<byte>, rs: seq<Reloc>, a: nat, n: nat, myAddr: int, toAddr: int,
          extra: nat)
    requires a <= n <= |rs| && RelocList(data, rs, n, myAddr, toAddr, extra).Some?
    ensures RelocList(data, rs, a, myAddr, toAddr, extra).Some?
  {
    if RelocList(data, rs, a, myAddr, toAddr, extra).None? { ListFails(data, rs, a, n, myAddr, toAddr, extra); }
  }

  /** The bytes of such an entry wait for it and then stay. */
  lemma ListSpan(data: seq<byte>, rs: seq<Reloc>, j: nat, myAddr: int, toAddr: int, extra: nat, n: nat)
    requires j < n <= |rs| && RelocList(data, rs, n, myAddr, toAddr, extra).Some?
    requires forall i :: 0 <= i < n && i != j ==> Apart(rs[j], rs[i])
    requires rs[j].offset + extra + 4 <= |data|
    ensures RelocList(data, rs, j, myAddr, toAddr, extra).Some?
    ensures RelocList(data, rs, j + 1, myAddr, toAddr, extra).Some?
    ensures forall p :: rs[j].offset + extra <= p < rs[j].offset + extra + 4 ==>
      RelocList(data, rs, j, myAddr, toAddr, extra).value[p] == data[p]
    ensures forall p :: rs[j].offset + extra <= p < rs[j].offset + extra + 4 ==>
      RelocList(data, rs, n, myAddr, toAddr, extra).value[p]
      == RelocList(data, rs, j + 1, myAddr, toAddr, extra).value[p]
  {
    hide RelocOne, RelocList;
    ListDefined(data, rs, j, n, myAddr, toAddr, extra);
    ListDefined(data, rs, j + 1, n, myAddr, toAddr, extra);
    ListStart(data, rs, myAddr, toAddr, extra);
    forall p | rs[j].offset + extra <= p < rs[j].offset + extra + 4
      ensures RelocList(data, rs, j, myAddr, toAddr, extra).value[p] == data[p]
      ensures RelocList(data, rs, n, myAddr, toAddr, extra).value[p]
        == RelocList(data, rs, j + 1, myAddr, toAddr, extra).value[p]
    {
      ListKeeps(data, rs, 0, j, myAddr, toAddr, extra, p);
      ListKeeps(data, rs, j + 1, n, myAddr, toAddr, extra, p);
    }
  }

  lemma ListStart(data: seq<byte>, rs: seq<Reloc>, myAddr: int, toAddr: int, extra: nat)
    ensures RelocList(data, rs, 0, myAddr, toAddr, extra) == Some(data)
  {
  }

  /** Byte `p` belongs to no entry of the tables from `a` up to `n`. */
  ghost predicate ClearOf(relocs: seq<Relocs>, a: nat, n: nat, extra: nat, p: nat)
    requires n <= |relocs|
  {
    forall k :: a <= k < n ==> Clear(relocs[k].entries, 0, |relocs[k].entries|, extra, p)
  }

  ghost predicate Targets(relocs: seq<Relocs>, addrs: seq<int>, id: nat) {
    id < |addrs| && forall k :: 0 <= k < |relocs| ==> relocs[k].to < |addrs|
  }

  lemma {:induction false} DataKeeps(data: seq<byte>, relocs: seq<Relocs>, a: nat, n: nat, addrs: seq<int>, id: nat,
          extra: nat, p: nat)
    requires a <= n <= |relocs| && Targets(relocs, addrs, id) && p < |data| && ClearOf(relocs, a, n, extra, p)
    requires RelocData(data, relocs, n, addrs, id, extra).Some?
    ensures var before := RelocData(data, relocs, a, addrs, id, extra);
      before.Some? && RelocData(data, relocs, n, addrs, id, extra).value[p] == before.value[p]
    decreases n
  {
    hide RelocList, Clear;
    if a < n {
      var d, rl := RelocData(data, relocs, n - 1, addrs, id, extra).value, relocs[n - 1];
      ListStart(d, rl.entries, addrs[id], addrs[rl.to], extra);
      ListKeeps(d, rl.entries, 0, |rl.entries|, addrs[id], addrs[rl.to], extra, p);
      DataKeeps(data, relocs, a, n - 1, addrs, id, extra, p);
    }
  }

  lemma DataDefined(data: seq<byte>, relocs: seq<Relocs>, a: nat, n: nat, addrs: seq<int>, id: nat, extra: nat)
    requires a <= n <= |relocs| && Targets(relocs, addrs, id) && RelocData(data, relocs, n, addrs, id, extra).Some?
    ensures RelocData(data, relocs, a, addrs, id, extra).Some?
  {
    hide RelocData;
    if RelocData(data, relocs, a, addrs, id, extra).None? { DataFails(data, relocs, a, n, addrs, id, extra); }
  }

  lemma DataStart(data: seq<byte>, relocs: seq<Relocs>, addrs: seq<int>, id: nat, extra: nat)
    requires Targets(relocs, addrs, id)
    ensures RelocData(data, relocs, 0, addrs, id, extra) == Some(data)
  {
  }

  lemma DataNext(data: seq<byte>, relocs: seq<Relocs>, n: nat, addrs: seq<int>, id: nat, extra: nat)
    requires n < |relocs| && Targets(relocs, addrs, id) && RelocData(data, relocs, n, addrs, id, extra).Some?
    ensures RelocData(data, relocs, n + 1, addrs, id, extra)
      == RelocList(RelocData(data, relocs, n, addrs, id, extra).value, relocs[n].entries, |relocs[n].entries|,
                   addrs[id], addrs[relocs[n].to], extra)
  {
  }

  /** The bytes of an entry that overlaps no other one belong to no other table. */
  lemma AloneClear(s: Segment, k: nat, j: nat, extra: nat, p: nat)
    requires HasEntry(s, k, j) && Alone(s, k, j)
    requires var off := s.relocs[k].entries[j].offset + extra; off <= p < off + 4
    ensures ClearOf(s.relocs, 0, k, extra, p) && ClearOf(s.relocs, k + 1, |s.relocs|, extra, p)
    ensures Clear(s.relocs[k].entries, 0, j, extra, p)
    ensures Clear(s.relocs[k].entries, j + 1, |s.relocs[k].entries|, extra, p)
  {
    forall k' | 0 <= k' < |s.relocs| && k' != k
      ensures Clear(s.relocs[k'].entries, 0, |s.relocs[k'].entries|, extra, p)
    {
      forall j' | 0 <= j' < |s.relocs[k'].entries|
        ensures p < s.relocs[k'].entries[j'].offset + extra || s.relocs[k'].entries[j'].offset + extra + 4 <= p
      {
        assert HasEntry(s, k', j') && Apart(s.relocs[k].entries[j], s.relocs[k'].entries[j']);
      }
    }
    forall j' | 0 <= j' < |s.relocs[k].entries| && j' != j
      ensures p < s.relocs[k].entries[j'].offset + extra || s.relocs[k].entries[j'].offset + extra + 4 <= p
    {
      assert HasEntry(s, k, j') && Apart(s.relocs[k].entries[j], s.relocs[k].entries[j']);
    }
  }

  /** An entry that overlaps no other one of its segment has the wanted number afterwards. */
  lemma DataEntry(data: seq<byte>, s: Segment, addrs: seq<int>, id: nat, extra: nat, k: nat, j: nat)
    requires HasEntry(s, k, j) && Alone(s, k, j) && Targets(s.relocs, addrs, id)
    requires RelocData(data, s.relocs, |s.relocs|, addrs, id, extra).Some?
    ensures var r := s.relocs[k].entries[j];
      && r.offset + extra + 4 <= |data|
      && Signed(LongAt(RelocData(data, s.relocs, |s.relocs|, addrs, id, extra).value, r.offset + extra))
         == Wanted(data, r, addrs[id], addrs[s.relocs[k].to], extra)
  {
    hide RelocData, RelocList, LongAt, Signed, ClearOf, Clear, Wanted;
    var r, rl, n := s.relocs[k].entries[j], s.relocs[k], |s.relocs|;
    DataDefined(data, s.relocs, k, n, addrs, id, extra);
    DataDefined(data, s.relocs, k + 1, n, addrs, id, extra);
    DataStart(data, s.relocs, addrs, id, extra);
    DataNext(data, s.relocs, k, addrs, id, extra);
    var was, now := RelocData(data, s.relocs, k, addrs, id, extra).value,
      RelocData(data, s.relocs, k + 1, addrs, id, extra).value;
    forall i | 0 <= i < |rl.entries| && i != j ensures Apart(r, rl.entries[i]) { assert HasEntry(s, k, i); }
    ListEntry(was, rl.entries, |rl.entries|, addrs[id], addrs[rl.to], extra, j);
    var out := RelocData(data, s.relocs, n, addrs, id, extra).value;
    forall p | r.offset + extra <= p < r.offset + extra + 4 ensures was[p] == data[p] && out[p] == now[p] {
      AloneClear(s, k, j, extra, p);
      DataKeeps(data, s.relocs, 0, k, addrs, id, extra, p);
      DataKeeps(data, s.relocs, k + 1, n, addrs, id, extra, p);
    }
    StoredStays(was, data, r, addrs[id], addrs[rl.to], extra);
    StoredStays(out, now, r, addrs[id], addrs[rl.to], extra);
  }

  lemma {:induction false} ListFailsAt(data: seq<byte>, rs: seq<Reloc>, n: nat, myAddr: int, toAddr: int, extra: nat)
    returns (j: nat)
    requires n <= |rs| && RelocList(data, rs, n, myAddr, toAddr, extra).None?
    ensures j < n && RelocList(data, rs, j, myAddr, toAddr, extra).Some?
    ensures RelocOne(RelocList(data, rs, j, myAddr, toAddr, extra).value, rs[j], myAddr, toAddr, extra).None?
  {
    hide RelocOne;
    if RelocList(data, rs, n - 1, myAddr, toAddr, extra).Some? {
      j := n - 1;
    } else {
      j := ListFailsAt(data, rs, n - 1, myAddr, toAddr, extra);
    }
  }

  lemma {:induction false} DataFailsAt(data: seq<byte>, relocs: seq<Relocs>, n: nat, addrs: seq<int>, id: nat,
          extra: nat)
    returns (k: nat)
    requires n <= |relocs| && Targets(relocs, addrs, id) && RelocData(data, relocs, n, addrs, id, extra).None?
    ensures k < n && RelocData(data, relocs, k, addrs, id, extra).Some?
    ensures RelocList(RelocData(data, relocs, k, addrs, id, extra).value, relocs[k].entries, |relocs[k].entries|,
                      addrs[id], addrs[relocs[k].to], extra).None?
  {
    hide RelocList;
    if RelocData(data, relocs, n - 1, addrs, id, extra).Some? {
      k := n - 1;
    } else {
      k := DataFailsAt(data, relocs, n - 1, addrs, id, extra);
    }
  }

  /** No two entries of the segment overlap. */
  ghost predicate Separate(s: Segment) { forall k, j :: HasEntry(s, k, j) ==> Alone(s, k, j) }

  /** The entry lies in the data and its number fits. */
  ghost predicate Fits(data: seq<byte>, s: Segment, addrs: seq<int>, id: nat, extra: nat, k: nat, j: nat)
    requires HasEntry(s, k, j) && Targets(s.relocs, addrs, id)
  {
    var r := s.relocs[k].entries[j];
    && r.offset + extra + 4 <= |data|
    && -0x8000_0000 <= Wanted(data, r, addrs[id], addrs[s.relocs[k].to], extra) < 0x8000_0000
  }

  /** A segment whose entries do not overlap is relocated exactly when each of them fits. */
  lemma DataSome(data: seq<byte>, s: Segment, addrs: seq<int>, id: nat, extra: nat)
    requires Targets(s.relocs, addrs, id) && Separate(s)
    ensures RelocData(data, s.relocs, |s.relocs|, addrs, id, extra).Some?
      <==> forall k, j :: HasEntry(s, k, j) ==> Fits(data, s, addrs, id, extra, k, j)
  {
    hide RelocData, RelocList, RelocOne, LongAt, Signed, ClearOf, Clear, Wanted, Alone;
    if RelocData(data, s.relocs, |s.relocs|, addrs, id, extra).Some? {
      forall k, j | HasEntry(s, k, j) ensures Fits(data, s, addrs, id, extra, k, j) {
        DataEntry(data, s, addrs, id, extra, k, j);
        var r := s.relocs[k].entries[j];
        SignedExact(LongAt(RelocData(data, s.relocs, |s.relocs|, addrs, id, extra).value, r.offset + extra));
      }
    } else {
      var k := DataFailsAt(data, s.relocs, |s.relocs|, addrs, id, extra);
      var d, rl := RelocData(data, s.relocs, k, addrs, id, extra).value, s.relocs[k];
      var j := ListFailsAt(d, rl.entries, |rl.entries|, addrs[id], addrs[rl.to], extra);
      assert HasEntry(s, k, j) && Alone(s, k, j);
      FailedOne(data, s, addrs, id, extra, k, j, d);
    }
  }

  lemma FailedOne(data: seq<byte>, s: Segment, addrs: seq<int>, id: nat, extra: nat, k: nat, j: nat, d: seq<byte>)
    requires HasEntry(s, k, j) && Alone(s, k, j) && Targets(s.relocs, addrs, id)
    requires RelocData(data, s.relocs, k, addrs, id, extra) == Some(d)
    requires var rl := s.relocs[k];
      var e := RelocList(d, rl.entries, j, addrs[id], addrs[rl.to], extra);
      e.Some? && RelocOne(e.value, rl.entries[j], addrs[id], addrs[rl.to], extra).None?
    ensures !Fits(data, s, addrs, id, extra, k, j)
  {
    hide RelocData, RelocList, RelocOne, LongAt, Signed, ClearOf, Clear, Wanted;
    var r, rl := s.relocs[k].entries[j], s.relocs[k];
    var e := RelocList(d, rl.entries, j, addrs[id], addrs[rl.to], extra).value;
    OneExact(e, r, addrs[id], addrs[rl.to], extra);
    DataStart(data, s.relocs, addrs, id, extra);
    ListStart(d, rl.entries, addrs[id], addrs[rl.to], extra);
    if r.offset + extra + 4 <= |data| {
      forall p | r.offset + extra <= p < r.offset + extra + 4 ensures e[p] == data[p] {
        AloneClear(s, k, j, extra, p);
        ListKeeps(d, rl.entries, 0, j, addrs[id], addrs[rl.to], extra, p);
        DataKeeps(data, s.relocs, 0, k, addrs, id, extra, p);
      }
      StoredStays(e, data, r, addrs[id], addrs[rl.to], extra);
    }
  }

  /** A byte of no entry is as it was. */
  lemma DataRest(data: seq<byte>, s: Segment, addrs: seq<int>, id: nat, extra: nat, p: nat)
    requires Targets(s.relocs, addrs, id) && p < |data| && Uncovered(s, extra, p)
    requires RelocData(data, s.relocs, |s.relocs|, addrs, id, extra).Some?
    ensures RelocData(data, s.relocs, |s.relocs|, addrs, id, extra).value[p] == data[p]
  {
    hide RelocData;
    forall k | 0 <= k < |s.relocs| ensures Clear(s.relocs[k].entries, 0, |s.relocs[k].entries|, extra, p) {
      forall j | 0 <= j < |s.relocs[k].entries|
        ensures p < s.relocs[k].entries[j].offset + extra || s.relocs[k].entries[j].offset + extra + 4 <= p
      {
        assert HasEntry(s, k, j);
      }
    }
    DataStart(data, s.relocs, addrs, id, extra);
    DataKeeps(data, s.relocs, 0, |s.relocs|, addrs, id, extra, p);
  }

  /** Byte `p` belongs to no entry. */
  ghost predicate Uncovered(s: Segment, extra: nat, p: int) {
    forall k, j :: HasEntry(s, k, j) ==>
      var off := s.relocs[k].entries[j].offset + extra; p < off || off + 4 <= p
  }

  // ----- what becomes of every segment -----

  lemma TargetsOf(segs: seq<Segment>, addrs: seq<int>, i: nat)
    requires WellFormed(segs) && i < |segs| && |addrs| == |segs|
    ensures Targets(segs[i].relocs, addrs, i)
  {
    assert SegOk(segs, i);
  }

  lemma {:induction false} EachIs(segs: seq<Segment>, addrs: seq<int>, n: nat, i: nat)
    requires WellFormed(segs) && i < n <= |segs| && |addrs| == |segs| && RelocEach(segs, addrs, n).Some?
    ensures RelocSeg(segs, addrs, i) == Some(RelocEach(segs, addrs, n).value[i])
  {
    hide RelocSeg;
    if i < n - 1 { EachIs(segs, addrs, n - 1, i); }
  }

  lemma {:induction false} EachSome(segs: seq<Segment>, addrs: seq<int>, n: nat)
    requires WellFormed(segs) && n <= |segs| && |addrs| == |segs|
    ensures RelocEach(segs, addrs, n).Some? <==> forall i :: 0 <= i < n ==> RelocSeg(segs, addrs, i).Some?
  {
    hide RelocSeg;
    if n > 0 { EachSome(segs, addrs, n - 1); }
  }

  /** Every entry that overlaps no other one of its segment has the address of its target plus the stored number
      plus the addend (less its own address when it is PC-relative), and every byte of no entry is that of the
      data, or 0 behind them. */
  lemma EachExact(segs: seq<Segment>, addrs: seq<int>, i: nat)
    requires WellFormed(segs) && i < |segs| && |addrs| == |segs| && RelocEach(segs, addrs, |segs|).Some?
    ensures var (out, stored) := (RelocEach(segs, addrs, |segs|).value[i], SegBytes(segs[i]));
      && |out| == |stored| == (if |segs[i].data| > segs[i].size then |segs[i].data| else segs[i].size)
      && (forall k, j :: HasEntry(segs[i], k, j) && Alone(segs[i], k, j) ==> EntryDone(segs[i], addrs, i, out, k, j))
      && (forall p :: 0 <= p < |out| && Uncovered(segs[i], 0, p) ==>
           out[p] == if p < |segs[i].data| then segs[i].data[p] else 0)
  {
    hide RelocEach, RelocData, Alone, Uncovered, LongAt, Signed;
    EachIs(segs, addrs, |segs|, i);
    TargetsOf(segs, addrs, i);
    var s, out, stored := segs[i], RelocEach(segs, addrs, |segs|).value[i], SegBytes(segs[i]);
    forall k, j | HasEntry(s, k, j) && Alone(s, k, j) ensures EntryDone(s, addrs, i, out, k, j) {
      DataEntry(stored, s, addrs, i, 0, k, j);
    }
    forall p | 0 <= p < |out| && Uncovered(s, 0, p) ensures out[p] == if p < |s.data| then s.data[p] else 0 {
      DataRest(stored, s, addrs, i, 0, p);
    }
  }

  ghost predicate EntryDone(s: Segment, addrs: seq<int>, i: nat, out: seq<byte>, k: nat, j: nat)
    requires HasEntry(s, k, j) && i < |addrs|
  {
    var (r, to, stored) := (s.relocs[k].entries[j], s.relocs[k].to, SegBytes(s));
    && to < |addrs| && r.offset + 4 <= |out| == |stored|
    && Signed(LongAt(out, r.offset))
       == addrs[to] + Signed(LongAt(stored, r.offset)) + r.addend - if r.pcRel then addrs[i] + r.offset else 0
  }

  /** Segments whose entries do not overlap are relocated exactly when every entry lies in its segment and every
      number fits 32 bits. */
  lemma RelocatesIff(segs: seq<Segment>, addrs: seq<int>)
    requires WellFormed(segs) && |addrs| == |segs| && forall i :: 0 <= i < |segs| ==> Separate(segs[i])
    ensures RelocEach(segs, addrs, |segs|).Some? <==> forall i :: 0 <= i < |segs| ==> SegFits(segs[i], addrs, i)
  {
    hide RelocEach, RelocSeg, Separate, SegFits;
    EachSome(segs, addrs, |segs|);
    forall i | 0 <= i < |segs| ensures RelocSeg(segs, addrs, i).Some? <==> SegFits(segs[i], addrs, i) {
      SegSome(segs, addrs, i);
    }
  }

  lemma SegSome(segs: seq<Segment>, addrs: seq<int>, i: nat)
    requires WellFormed(segs) && |addrs| == |segs| && i < |segs| && Separate(segs[i])
    ensures RelocSeg(segs, addrs, i).Some? <==> SegFits(segs[i], addrs, i)
  {
    hide RelocData, Separate, LongAt, Signed, SegBytes, Fits, EntryFits;
    TargetsOf(segs, addrs, i);
    DataSome(SegBytes(segs[i]), segs[i], addrs, i, 0);
    forall k, j | HasEntry(segs[i], k, j)
      ensures Fits(SegBytes(segs[i]), segs[i], addrs, i, 0, k, j) <==> EntryFits(segs[i], addrs, i, k, j)
    {
      SameFits(segs[i], addrs, i, k, j);
    }
  }

  lemma SameFits(s: Segment, addrs: seq<int>, i: nat, k: nat, j: nat)
    requires HasEntry(s, k, j) && Targets(s.relocs, addrs, i)
    ensures Fits(SegBytes(s), s, addrs, i, 0, k, j) <==> EntryFits(s, addrs, i, k, j)
  {
    hide LongAt, Signed, SegBytes;
  }

  /** Every entry lies in the segment and its number fits. */
  ghost predicate SegFits(s: Segment, addrs: seq<int>, i: nat)
    requires i < |addrs|
  {
    forall k, j :: HasEntry(s, k, j) ==> EntryFits(s, addrs, i, k, j)
  }

  ghost predicate EntryFits(s: Segment, addrs: seq<int>, i: nat, k: nat, j: nat)
    requires HasEntry(s, k, j) && i < |addrs|
  {
    var (r, to, stored) := (s.relocs[k].entries[j], s.relocs[k].to, SegBytes(s));
    && to < |addrs| && r.offset + 4 <= |stored|
    && var number := addrs[to] + Signed(LongAt(stored, r.offset)) + r.addend;
    -0x8000_0000 <= number - (if r.pcRel then addrs[i] + r.offset else 0) < 0x8000_0000
  }

  // ----- what becomes of the block -----

  /** Every entry lies in its segment. */
  ghost predicate AllInside(segs: seq<Segment>) {
    forall i :: 0 <= i < |segs| ==> Inside(segs[i])
  }

  ghost predicate Inside(s: Segment) {
    forall k, j :: HasEntry(s, k, j) ==> s.relocs[k].entries[j].offset + 4 <= s.size
  }

  lemma BlockStart(segs: seq<Segment>, addrs: seq<int>, padding: nat)
    requires WellFormed(segs) && |addrs| == |segs|
    ensures OneBlock(segs, addrs, padding, 0) == Some(ZeroBytes(TotalSize(segs, padding, |segs|)))
  {
  }

  lemma BlockNext(segs: seq<Segment>, addrs: seq<int>, padding: nat, n: nat)
    requires WellFormed(segs) && DataFits(segs) && n < |segs| && |addrs| == |segs|
    requires OneBlock(segs, addrs, padding, n).Some?
    ensures var d, off := OneBlock(segs, addrs, padding, n).value, TotalSize(segs, padding, n);
      && Targets(segs[n].relocs, addrs, n) && off + segs[n].size + padding <= |d| == TotalSize(segs, padding, |segs|)
      && off + segs[n].size + padding == TotalSize(segs, padding, n + 1)
      && OneBlock(segs, addrs, padding, n + 1)
         == RelocData(Pasted(d, off, segs[n].data), segs[n].relocs, |segs[n].relocs|, addrs, n, off)
  {
    hide RelocData, TotalSize, Pasted;
    assert SegOk(segs, n);
    SizeGrows(segs, padding, n + 1, |segs|);
    SizeNext(segs, padding, n);
  }

  lemma BlockDefined(segs: seq<Segment>, addrs: seq<int>, padding: nat, a: nat, n: nat)
    requires WellFormed(segs) && a <= n <= |segs| && |addrs| == |segs| && OneBlock(segs, addrs, padding, n).Some?
    ensures OneBlock(segs, addrs, padding, a).Some?
  {
    hide OneBlock;
    if OneBlock(segs, addrs, padding, a).None? { BlockFails(segs, addrs, padding, a, n); }
  }

  /** The bytes of a segment outside the segments from `a` up to `n` stay while these are filled in. */
  lemma {:induction false} BlockKeeps(segs: seq<Segment>, addrs: seq<int>, padding: nat, a: nat, n: nat, p: nat)
    requires WellFormed(segs) && DataFits(segs) && AllInside(segs) && a <= n <= |segs| && |addrs| == |segs|
    requires OneBlock(segs, addrs, padding, n).Some? && p < TotalSize(segs, padding, |segs|)
    requires p < TotalSize(segs, padding, a) || TotalSize(segs, padding, n) <= p
    ensures OneBlock(segs, addrs, padding, a).Some?
    ensures OneBlock(segs, addrs, padding, n).value[p] == OneBlock(segs, addrs, padding, a).value[p]
    decreases n
  {
    hide RelocData, TotalSize, OneBlock;
    if a < n {
      BlockDefined(segs, addrs, padding, n - 1, n);
      BlockNext(segs, addrs, padding, n - 1);
      SizeGrows(segs, padding, a, n - 1);
      BlockKeeps(segs, addrs, padding, a, n - 1, p);
      var s, off := segs[n - 1], TotalSize(segs, padding, n - 1);
      assert Inside(s);
      DataRest(Pasted(OneBlock(segs, addrs, padding, n - 1).value, off, s.data), s, addrs, n - 1, off, p);
    }
  }

  /** Before its relocations are done a segment is its data and zeros, behind the segments before it. */
  lemma BlockCopied(segs: seq<Segment>, addrs: seq<int>, padding: nat, i: nat)
    requires WellFormed(segs) && DataFits(segs) && AllInside(segs) && i < |segs| && |addrs| == |segs|
    requires OneBlock(segs, addrs, padding, i).Some?
    ensures var d, off := OneBlock(segs, addrs, padding, i).value, TotalSize(segs, padding, i);
      && off + segs[i].size + padding <= |d| == |Pasted(d, off, segs[i].data)|
      && (forall q :: 0 <= q < segs[i].size ==> Pasted(d, off, segs[i].data)[off + q] == SegBytes(segs[i])[q])
      && (forall p :: off + segs[i].size <= p < off + segs[i].size + padding ==> Pasted(d, off, segs[i].data)[p] == 0)
  {
    hide RelocData, TotalSize, OneBlock;
    BlockNext(segs, addrs, padding, i);
    BlockStart(segs, addrs, padding);
    SizeNone(segs, padding);
    var d, off := OneBlock(segs, addrs, padding, i).value, TotalSize(segs, padding, i);
    forall p | off <= p < |d| ensures d[p] == 0 { BlockKeeps(segs, addrs, padding, 0, i, p); }
  }

  /** The same numbers as segment by segment, at the address of the segment in the block; for a PC-relative entry
      the code counts its place from the start of the block, so the bytes in front of the segment count twice. */
  lemma BlockEntry(segs: seq<Segment>, addrs: seq<int>, padding: nat, i: nat, k: nat, j: nat)
    requires WellFormed(segs) && DataFits(segs) && AllInside(segs) && i < |segs| && |addrs| == |segs|
    requires OneBlock(segs, addrs, padding, |segs|).Some? && HasEntry(segs[i], k, j) && Alone(segs[i], k, j)
    ensures BlockDone(segs[i], addrs, i, TotalSize(segs, padding, i),
                      OneBlock(segs, addrs, padding, |segs|).value, k, j)
  {
    hide RelocData, TotalSize, OneBlock, LongAt, Signed, Alone, Pasted, SegBytes;
    var s, off, out := segs[i], TotalSize(segs, padding, i), OneBlock(segs, addrs, padding, |segs|).value;
    var r, stored := s.relocs[k].entries[j], SegBytes(s);
    BlockDefined(segs, addrs, padding, i, |segs|);
    BlockDefined(segs, addrs, padding, i + 1, |segs|);
    BlockNext(segs, addrs, padding, i);
    BlockCopied(segs, addrs, padding, i);
    assert Inside(s) && |s.data| <= s.size;
    var copied := Pasted(OneBlock(segs, addrs, padding, i).value, off, s.data);
    var done := OneBlock(segs, addrs, padding, i + 1).value;
    DataEntry(copied, s, addrs, i, off, k, j);
    forall p | off + r.offset <= p < off + r.offset + 4 ensures out[p] == done[p] {
      BlockKeeps(segs, addrs, padding, i + 1, |segs|, p);
    }
    assert out[off + r.offset..off + r.offset + 4] == done[off + r.offset..off + r.offset + 4];
    LongAtSame(out, off + r.offset, done, off + r.offset);
    assert copied[off + r.offset..off + r.offset + 4] == stored[r.offset..r.offset + 4] by {
      forall q | r.offset <= q < r.offset + 4 ensures copied[off + q] == stored[q] { }
    }
    LongAtSame(copied, off + r.offset, stored, r.offset);
  }

  ghost predicate BlockDone(s: Segment, addrs: seq<int>, i: nat, off: nat, out: seq<byte>, k: nat, j: nat)
    requires HasEntry(s, k, j) && i < |addrs|
  {
    var (r, to, stored) := (s.relocs[k].entries[j], s.relocs[k].to, SegBytes(s));
    && to < |addrs| && r.offset + 4 <= |stored| && off + r.offset + 4 <= |out|
    && Signed(LongAt(out, off + r.offset)) == addrs[to] + Signed(LongAt(stored, r.offset)) + r.addend
       - if r.pcRel then addrs[i] + off + r.offset else 0
  }

  /** The other bytes of the block: those of the data, and zeros behind them up to the next segment. */
  lemma BlockRest(segs: seq<Segment>, addrs: seq<int>, padding: nat, i: nat, q: nat)
    requires WellFormed(segs) && DataFits(segs) && AllInside(segs) && i < |segs| && |addrs| == |segs|
    requires OneBlock(segs, addrs, padding, |segs|).Some? && q < segs[i].size + padding && Uncovered(segs[i], 0, q)
    ensures var out, off := OneBlock(segs, addrs, padding, |segs|).value, TotalSize(segs, padding, i);
      off + q < |out| && out[off + q] == if q < |segs[i].data| then segs[i].data[q] else 0
  {
    hide RelocData, TotalSize, OneBlock, Pasted;
    var s, off := segs[i], TotalSize(segs, padding, i);
    BlockDefined(segs, addrs, padding, i, |segs|);
    BlockDefined(segs, addrs, padding, i + 1, |segs|);
    BlockNext(segs, addrs, padding, i);
    BlockCopied(segs, addrs, padding, i);
    assert |s.data| <= s.size;
    BlockKeeps(segs, addrs, padding, i + 1, |segs|, off + q);
    var copied := Pasted(OneBlock(segs, addrs, padding, i).value, off, s.data);
    DataRest(copied, s, addrs, i, off, off + q);
    assert q < s.size ==> copied[off + q] == SegBytes(s)[q];
  }

  /** Both at once, for addresses in sequence from `base`. */
  lemma BlockExact(segs: seq<Segment>, base: int, padding: nat)
    requires WellFormed(segs) && DataFits(segs) && AllInside(segs)
    requires OneBlock(segs, SeqAddrs(segs, base, padding), padding, |segs|).Some?
    ensures var out := OneBlock(segs, SeqAddrs(segs, base, padding), padding, |segs|).value;
      && |out| == TotalSize(segs, padding, |segs|)
      && (forall i, k, j :: 0 <= i < |segs| && HasEntry(segs[i], k, j) && Alone(segs[i], k, j) ==>
           BlockDone(segs[i], SeqAddrs(segs, base, padding), i, TotalSize(segs, padding, i), out, k, j))
      && (forall i, q :: 0 <= i < |segs| && 0 <= q < segs[i].size + padding && Uncovered(segs[i], 0, q) ==>
           BlockByte(segs[i], TotalSize(segs, padding, i), out, q))
  {
    hide OneBlock, TotalSize, Alone, Uncovered, BlockDone;
    var addrs := SeqAddrs(segs, base, padding);
    forall i, k, j | 0 <= i < |segs| && HasEntry(segs[i], k, j) && Alone(segs[i], k, j)
      ensures BlockDone(segs[i], addrs, i, TotalSize(segs, padding, i),
                        OneBlock(segs, addrs, padding, |segs|).value, k, j)
    {
      BlockEntry(segs, addrs, padding, i, k, j);
    }
    forall i, q | 0 <= i < |segs| && 0 <= q < segs[i].size + padding && Uncovered(segs[i], 0, q)
      ensures BlockByte(segs[i], TotalSize(segs, padding, i), OneBlock(segs, addrs, padding, |segs|).value, q)
    {
      BlockRest(segs, addrs, padding, i, q);
    }
  }

  ghost predicate BlockByte(s: Segment, off: nat, out: seq<byte>, q: nat) {
    off + q < |out| && out[off + q] == if q < |s.data| then s.data[q] else 0
  }

  // ----- the methods -----

  method RelocInPlace(data: array<byte>, r: Reloc, myAddr: int, toAddr: int, extra: nat) returns (ok: bool)
    modifies data
    ensures ok <==> RelocOne(old(data[..]), r, myAddr, toAddr, extra).Some?
    ensures ok ==> RelocOne(old(data[..]), r, myAddr, toAddr, extra) == Some(data[..])
    ensures var at := r.offset + extra;
      ok <==> (at + 4 <= data.Length && -0x8000_0000
        <= toAddr + Signed(LongAt(old(data[..]), at)) + r.addend - (if r.pcRel then myAddr + at else 0) < 0x8000_0000)
    ensures ok ==> var at := r.offset + extra;
      at + 4 <= data.Length && Signed(LongAt(data[..], at))
        == toAddr + Signed(LongAt(old(data[..]), at)) + r.addend - if r.pcRel then myAddr + at else 0
    ensures forall p :: 0 <= p < data.Length && !(r.offset + extra <= p < r.offset + extra + 4) ==>
      data[p] == old(data[p])
  {
    OneExact(data[..], r, myAddr, toAddr, extra);
    var offset := r.offset + extra;
    if offset + 4 > data.Length { return false; }
    var delta := Signed(LongAt(data[..], offset)) + r.addend;
    var addr;
    if !r.pcRel {
      addr := toAddr + delta;
    } else {
      addr := delta + toAddr - myAddr - offset;
    }
    if !FitsSigned(addr) { return false; }
    PackLong(data, offset, Unsigned(addr));
    ok := true;
  }

  method RelocDataInPlace(data: array<byte>, relocs: seq<Relocs>, addrs: seq<int>, id: nat, offset: nat)
    returns (ok: bool)
    requires id < |addrs| && forall k :: 0 <= k < |relocs| ==> relocs[k].to < |addrs|
    modifies data
    ensures ok <==> RelocData(old(data[..]), relocs, |relocs|, addrs, id, offset).Some?
    ensures ok ==> RelocData(old(data[..]), relocs, |relocs|, addrs, id, offset) == Some(data[..])
  {
    hide RelocOne;
    ghost var start := data[..];
    for i := 0 to |relocs|
      invariant RelocData(start, relocs, i, addrs, id, offset) == Some(data[..])
    {
      var rs := relocs[i].entries;
      ghost var before := data[..];
      for j := 0 to |rs|
        invariant RelocList(before, rs, j, addrs[id], addrs[relocs[i].to], offset) == Some(data[..])
      {
        ok := RelocInPlace(data, rs[j], addrs[id], addrs[relocs[i].to], offset);
        if !ok {
          ListFails(before, rs, j + 1, |rs|, addrs[id], addrs[relocs[i].to], offset);
          DataFails(start, relocs, i + 1, |relocs|, addrs, id, offset);
          return;
        }
      }
    }
    ok := true;
  }

  lemma {:induction false} ListFails(data: seq<byte>, rs: seq<Reloc>, i: nat, n: nat, myAddr: int, toAddr: int,
          extra: nat)
    requires i <= n <= |rs| && RelocList(data, rs, i, myAddr, toAddr, extra).None?
    ensures RelocList(data, rs, n, myAddr, toAddr, extra).None?
    decreases n
  {
    hide RelocOne;
    if i < n { ListFails(data, rs, i, n - 1, myAddr, toAddr, extra); }
  }

  lemma {:induction false} DataFails(data: seq<byte>, relocs: seq<Relocs>, i: nat, n: nat, addrs: seq<int>,
          id: nat, extra: nat)
    requires i <= n <= |relocs| && id < |addrs| && forall k :: 0 <= k < |relocs| ==> relocs[k].to < |addrs|
    requires RelocData(data, relocs, i, addrs, id, extra).None?
    ensures RelocData(data, relocs, n, addrs, id, extra).None?
    decreases n
  {
    if i < n { DataFails(data, relocs, i, n - 1, addrs, id, extra); }
  }

  /** `_copy_data`; data that do not fit make the buffer longer. */
  method CopyData(data: array<byte>, src: seq<byte>, offset: nat) returns (r: array<byte>)
    requires offset <= data.Length
    modifies data
    ensures r[..] == Pasted(old(data[..]), offset, src) && (r == data || fresh(r))
  {
    if offset + |src| <= data.Length {
      r := data;
    } else {
      r := new byte[offset + |src|](_ => 0);
      forall k | 0 <= k < offset { r[k] := data[k]; }
    }
    forall k | 0 <= k < |src| { r[offset + k] := src[k]; }
  }

  /** `relocate`. */
  method Relocate(segs: seq<Segment>, addrs: seq<int>) returns (datas: Option<seq<seq<byte>>>)
    requires WellFormed(segs)
    ensures |addrs| != |segs| ==> datas.None?
    ensures |addrs| == |segs| ==> datas == RelocEach(segs, addrs, |segs|)
    ensures datas.Some? ==> |addrs| == |segs| == |datas.value|
    ensures datas.Some? ==> forall i, k, j :: (
      0 <= i < |segs| && SegOk(segs, i) && HasEntry(segs[i], k, j) && Alone(segs[i], k, j) ==>
        var (r, to, out) := (segs[i].relocs[k].entries[j], segs[i].relocs[k].to, datas.value[i]);
        && r.offset + 4 <= |out| == |SegBytes(segs[i])|
        && Signed(LongAt(out, r.offset)) == addrs[to] + Signed(LongAt(SegBytes(segs[i]), r.offset)) + r.addend
           - if r.pcRel then addrs[i] + r.offset else 0)
    ensures datas.Some? ==> forall i, p :: (
      0 <= i < |segs| && 0 <= p < |datas.value[i]| && Uncovered(segs[i], 0, p) ==>
        datas.value[i][p] == if p < |segs[i].data| then segs[i].data[p] else 0)
  {
    hide RelocData, Alone, Uncovered, Signed, LongAt;
    if |segs| != |addrs| { return None; }
    var result := [];
    for i := 0 to |segs|
      invariant RelocEach(segs, addrs, i) == Some(result)
    {
      assert SegOk(segs, i);
      // allocate new buffer
      var data := new byte[segs[i].size](_ => 0);
      assert data[..] == ZeroBytes(segs[i].size);
      data := CopyData(data, segs[i].data, 0);
      var ok := RelocDataInPlace(data, segs[i].relocs, addrs, i, 0);
      if !ok {
        EachFails(segs, addrs, i + 1, |segs|);
        return None;
      }
      result := result + [data[..]];
    }
    datas := Some(result);
    forall i | 0 <= i < |segs| ensures SegDone(segs, addrs, i, result[i]) { EachExact(segs, addrs, i); }
  }

  ghost predicate SegDone(segs: seq<Segment>, addrs: seq<int>, i: nat, out: seq<byte>)
    requires i < |segs| == |addrs|
  {
    && (forall k, j :: HasEntry(segs[i], k, j) && Alone(segs[i], k, j) ==> EntryDone(segs[i], addrs, i, out, k, j))
    && (forall p :: 0 <= p < |out| && Uncovered(segs[i], 0, p) ==>
         out[p] == if p < |segs[i].data| then segs[i].data[p] else 0)
  }

  lemma {:induction false} EachFails(segs: seq<Segment>, addrs: seq<int>, i: nat, n: nat)
    requires WellFormed(segs) && i <= n <= |segs| && |addrs| == |segs| && RelocEach(segs, addrs, i).None?
    ensures RelocEach(segs, addrs, n).None?
    decreases n
  {
    if i < n { EachFails(segs, addrs, i, n - 1); }
  }

  /** `relocate_one_block`; null where the code raises. */
  method RelocateOneBlock(segs: seq<Segment>, base: int, padding: nat) returns (data: array?<byte>)
    requires WellFormed(segs)
    ensures data == null <==> OneBlock(segs, SeqAddrs(segs, base, padding), padding, |segs|).None?
    ensures data != null ==>
      fresh(data) && OneBlock(segs, SeqAddrs(segs, base, padding), padding, |segs|) == Some(data[..])
    ensures data != null && DataFits(segs) && AllInside(segs) ==> forall i, k, j :: (
      0 <= i < |segs| && SegOk(segs, i) && HasEntry(segs[i], k, j) && Alone(segs[i], k, j) ==>
        var (r, to, at) := (segs[i].relocs[k].entries[j], segs[i].relocs[k].to, TotalSize(segs, padding, i));
        && at + r.offset + 4 <= data.Length && r.offset + 4 <= |SegBytes(segs[i])|
        && Signed(LongAt(data[..], at + r.offset)) == base + TotalSize(segs, padding, to)
           + Signed(LongAt(SegBytes(segs[i]), r.offset)) + r.addend
           - if r.pcRel then base + at + at + r.offset else 0)
    ensures data != null && DataFits(segs) && AllInside(segs) ==> forall i, q :: (
      0 <= i < |segs| && 0 <= q < segs[i].size + padding && Uncovered(segs[i], 0, q) ==>
        var at := TotalSize(segs, padding, i);
        at + q < data.Length && data[at + q] == if q < |segs[i].data| then segs[i].data[q] else 0)
  {
    hide OneBlock, TotalSize, Alone, Uncovered, LongAt, Signed, DataFits, AllInside;
    var totalSize := GetTotalSize(segs, padding);
    var block := new byte[totalSize](_ => 0);
    var addrs := GetSeqAddrs(segs, base, padding);
    data := FillBlock(segs, addrs, padding, block);
    if data != null && DataFits(segs) && AllInside(segs) { BlockExact(segs, base, padding); }
  }

  /** Its loop on the zeroed block. */
  method FillBlock(segs: seq<Segment>, addrs: seq<int>, padding: nat, zeros: array<byte>) returns (data: array?<byte>)
    requires WellFormed(segs) && |addrs| == |segs| && zeros[..] == ZeroBytes(TotalSize(segs, padding, |segs|))
    modifies zeros
    ensures data == null <==> OneBlock(segs, addrs, padding, |segs|).None?
    ensures data != null ==> data == zeros || fresh(data)
    ensures data != null ==> OneBlock(segs, addrs, padding, |segs|) == Some(data[..])
  {
    hide RelocData, TotalSize, Pasted;
    SizeNone(segs, padding);
    BlockStart(segs, addrs, padding);
    var block, offset := zeros, 0;
    for i := 0 to |segs|
      invariant offset == TotalSize(segs, padding, i) && OneBlock(segs, addrs, padding, i) == Some(block[..])
      invariant block == zeros || fresh(block)
    {
      assert SegOk(segs, i);
      SizeNext(segs, padding, i);
      SizeGrows(segs, padding, i + 1, |segs|);
      block := CopyData(block, segs[i].data, offset);
      var ok := RelocDataInPlace(block, segs[i].relocs, addrs, i, offset);
      if !ok {
        BlockFails(segs, addrs, padding, i + 1, |segs|);
        return null;
      }
      offset := offset + segs[i].size + padding;
    }
    data := block;
  }

  lemma {:induction false} BlockFails(segs: seq<Segment>, addrs: seq<int>, padding: nat, i: nat, n: nat)
    requires WellFormed(segs) && i <= n <= |segs| && |addrs| == |segs| && OneBlock(segs, addrs, padding, i).None?
    ensures OneBlock(segs, addrs, padding, n).None?
    decreases n
  {
    hide RelocData, TotalSize, Pasted;
    if i < n { BlockFails(segs, addrs, padding, i, n - 1); }
  }
}
