/** The block bitmap: packed big-endian longs, the truth values they stand for, and the set of
    free blocks these denote. */
module BitmapWords {
  import opened Bytes
  import Seqs
  import Device

  function NumBits(g: Device.Geometry): (n: nat)
    requires g.Valid()
    ensures n > 0
  {
    g.numBlocks - g.reserved
  }

  function NumLongs(g: Device.Geometry): (n: nat)
    requires g.Valid()
    ensures n > 0
  {
    CeilDiv(NumBits(g), 32)
  }

  /** A bitmap with room for every block. */
  predicate Fits(g: Device.Geometry, data: seq<byte>)
    requires g.Valid()
  {
    4 * NumLongs(g) <= |data|
  }

  lemma BitFits(g: Device.Geometry, data: seq<byte>, o: nat)
    requires g.Valid() && Fits(g, data) && o < NumBits(g)
    ensures o / 32 < NumLongs(g) && o / 32 * 4 + 4 <= |data|
  {
    LongsBounds(NumBits(g));
  }

  predicate BitAt(data: seq<byte>, o: nat) {
    o / 32 * 4 + 4 <= |data| && HasBit(LongAt(data, o / 32 * 4), o % 32)
  }

  /** The first `n` truth values: true means free. */
  function FirstBits(data: seq<byte>, n: nat): (r: seq<bool>)
    ensures |r| == n
  {
    if n == 0 then [] else FirstBits(data, n - 1) + [BitAt(data, n - 1)]
  }

  lemma {:induction false} FirstBitsAt(data: seq<byte>, n: nat, o: nat)
    requires o < n
    ensures FirstBits(data, n)[o] == BitAt(data, o)
  {
    if o < n - 1 {
      FirstBitsAt(data, n - 1, o);
    }
  }

  /** One truth value per block. */
  function Bits(g: Device.Geometry, data: seq<byte>): (r: seq<bool>)
    requires g.Valid() && Fits(g, data)
    ensures |r| == NumBits(g)
  {
    FirstBits(data, NumBits(g))
  }

  /** The bytes after `set_bit` (`free`) or `clr_bit` (`!free`) of bit `o`. */
  function Marked(data: seq<byte>, o: nat, free: bool): (r: seq<byte>)
    requires o / 32 * 4 + 4 <= |data|
    ensures |r| == |data|
  {
    var val := LongAt(data, o / 32 * 4);
    BitOpsAreLongs(val, o % 32);
    PutLong(data, o / 32 * 4, if free then OrBit(val, o % 32) else AndNotBit(val, o % 32))
  }

  lemma BitOpsAreLongs(v: long, bit: nat)
    requires bit < 32
    ensures OrBit(v, bit) < 0x1_0000_0000 && AndNotBit(v, bit) < 0x1_0000_0000
  {
    Pow2Of32();
    BitOpsInRange(v, bit, 32);
  }

  lemma MarkedBit(data: seq<byte>, o: nat, free: bool, p: nat)
    requires o / 32 * 4 + 4 <= |data|
    ensures BitAt(Marked(data, o, free), p) == if p == o then free else BitAt(data, p)
  {
    var val := LongAt(data, o / 32 * 4);
    OrBitBits(val, o % 32, p % 32);
    AndNotBitBits(val, o % 32, p % 32);
    if o / 32 != p / 32 && p / 32 * 4 + 4 <= |data| {
      LongAtSame(Marked(data, o, free), p / 32 * 4, data, p / 32 * 4);
    }
  }

  /** `set_bit`/`clr_bit` on the packed longs change exactly one truth value. */
  lemma MarkedBits(g: Device.Geometry, data: seq<byte>, o: nat, free: bool)
    requires g.Valid() && Fits(g, data) && o < NumBits(g) && o / 32 * 4 + 4 <= |data|
    ensures Bits(g, Marked(data, o, free)) == Bits(g, data)[o := free]
  {
    var r := Marked(data, o, free);
    forall p: nat ensures BitAt(r, p) == if p == o then free else BitAt(data, p) {
      MarkedBit(data, o, free, p);
    }
    FirstBitsUpdate(data, r, o, free, NumBits(g));
  }

  lemma {:induction false} FirstBitsUpdate(data: seq<byte>, r: seq<byte>, o: nat, free: bool, n: nat)
    requires forall p: nat :: BitAt(r, p) == if p == o then free else BitAt(data, p)
    ensures FirstBits(r, n) == if o < n then FirstBits(data, n)[o := free] else FirstBits(data, n)
  {
    if n > 0 {
      FirstBitsUpdate(data, r, o, free, n - 1);
    }
  }

  /** Unpack the long of bit `o`, set or clear the bit, pack it back. */
  method MarkBit(a: array<byte>, o: nat, free: bool, ghost g: Device.Geometry)
    requires g.Valid() && Fits(g, a[..]) && o < NumBits(g)
    modifies a
    ensures Fits(g, a[..]) && Bits(g, a[..]) == Bits(g, old(a[..]))[o := free]
  {
    ghost var was := a[..];
    BitFits(g, was, o);
    var val := LongAt(a[..], o / 32 * 4);
    BitOpsAreLongs(val, o % 32);
    PackLong(a, o / 32 * 4, if free then OrBit(val, o % 32) else AndNotBit(val, o % 32));
    MarkedBits(g, was, o, free);
  }

  /** All bytes 0xff: every block is free. */
  lemma AllFree(g: Device.Geometry, data: seq<byte>)
    requires g.Valid() && Fits(g, data) && forall i :: 0 <= i < |data| ==> data[i] == 0xFF
    ensures forall o :: 0 <= o < NumBits(g) ==> Bits(g, data)[o]
  {
    forall o | 0 <= o < NumBits(g) ensures Bits(g, data)[o] {
      FirstBitsAt(data, NumBits(g), o);
      BitFits(g, data, o);
      Pow2Of32();
      AllOnes(LongAt(data, o / 32 * 4), 32, o % 32);
    }
  }

  /** A block is free exactly when its binary digit is 1, counting the blocks from the first after the reserved
      ones through the longs in order and from the lowest digit of each long. */
  lemma FreeDigit(g: Device.Geometry, data: seq<byte>, b: nat)
    requires g.Valid() && Fits(g, data) && g.reserved <= b < g.numBlocks
    ensures var o := b - g.reserved;
      o / 32 * 4 + 4 <= |data| && (b in FreeSet(g.reserved, Bits(g, data)) <==>
        LongAt(data, 4 * (o / 32)) / Pow2(o % 32) % 2 == 1)
  {
    hide FirstBits, HasBit;
    var o := b - g.reserved;
    BitFits(g, data, o);
    FirstBitsAt(data, NumBits(g), o);
    HasBitIsDigit(LongAt(data, 4 * (o / 32)), o % 32);
    assert FreeAt(g.reserved, Bits(g, data), b) == BitAt(data, o);
  }

  // ----- the set of free blocks -----

  predicate FreeAt(base: nat, bits: seq<bool>, b: nat)
    requires base <= b < base + |bits|
  {
    bits[b - base]
  }

  ghost function FreeSet(base: nat, bits: seq<bool>): set<nat> {
    set b | base <= b < base + |bits| && FreeAt(base, bits, b)
  }

  ghost function UsedSet(base: nat, bits: seq<bool>): set<nat> {
    set b | base <= b < base + |bits| && !FreeAt(base, bits, b)
  }

  /** Marking a block adds or removes exactly that member. */
  lemma MarkedSet(base: nat, bits: seq<bool>, b: nat, free: bool)
    requires base <= b < base + |bits|
    ensures var r := bits[b - base := free];
      && FreeSet(base, r) == (if free then FreeSet(base, bits) + {b} else FreeSet(base, bits) - {b})
      && UsedSet(base, r) == (if free then UsedSet(base, bits) - {b} else UsedSet(base, bits) + {b})
  {
  }

  /** Bits `lo..hi` are clear and all others set. */
  ghost predicate OnlyClear(bits: seq<bool>, lo: nat, hi: nat) {
    forall o :: 0 <= o < |bits| ==> bits[o] == !(lo <= o < hi)
  }

  lemma OnlyClearSet(base: nat, bits: seq<bool>, lo: nat, hi: nat)
    requires OnlyClear(bits, lo, hi) && lo <= hi <= |bits|
    ensures FreeSet(base, bits) == Seqs.Range(base, base + |bits|) - Seqs.Range(base + lo, base + hi)
  {
    Seqs.RangeElems(base, base + |bits|);
    Seqs.RangeElems(base + lo, base + hi);
  }

  /** One block more of a list becomes free. */
  lemma FreedNext(base: nat, bits: seq<bool>, before: set<nat>, blks: seq<nat>, i: nat)
    requires i < |blks|
    requires FreeSet(base, bits) == before + Seqs.Elems(blks[..i]) * Seqs.Range(base, base + |bits|)
    ensures var r := if base <= blks[i] < base + |bits| then bits[blks[i] - base := true] else bits;
      FreeSet(base, r) == before + Seqs.Elems(blks[..i + 1]) * Seqs.Range(base, base + |bits|)
  {
    hide FreeSet, Seqs.Elems, Seqs.Range;
    Seqs.InRangeSet(base, base + |bits|, blks[i]);
    Seqs.AddNext(before, Seqs.Range(base, base + |bits|), blks, i);
    if base <= blks[i] < base + |bits| { MarkedSet(base, bits, blks[i], true); }
  }

  /** What `get_num_used` counts in the first `n` bits. */
  function CountUsed(bits: seq<bool>, n: nat): nat
    requires n <= |bits|
  {
    if n == 0 then 0 else CountUsed(bits, n - 1) + if bits[n - 1] then 0 else 1
  }

  lemma {:induction false} CountUsedIsCard(base: nat, bits: seq<bool>, n: nat)
    requires n <= |bits|
    ensures CountUsed(bits, n) == |UsedSet(base, bits[..n])|
  {
    if n == 0 {
      assert UsedSet(base, bits[..n]) == {};
    } else {
      CountUsedIsCard(base, bits, n - 1);
      var less := UsedSet(base, bits[..n - 1]);
      assert UsedSet(base, bits[..n]) == if bits[n - 1] then less else less + {base + n - 1};
    }
  }

  lemma {:induction false} CountAllFree(bits: seq<bool>, n: nat)
    requires OnlyClear(bits, 0, 0) && n <= |bits|
    ensures CountUsed(bits, n) == 0
  {
    if n > 0 {
      CountAllFree(bits, n - 1);
    }
  }

  /** `num_used` moves with the count: by one when the bit really changes, else not at all. */
  lemma {:induction false} MarkedCount(bits: seq<bool>, o: nat, free: bool, n: nat)
    requires o < |bits| && n <= |bits|
    ensures CountUsed(bits[o := free], n)
      == CountUsed(bits, n) + if n <= o || bits[o] == free then 0 else if free then -1 else 1
  {
    if n > 0 {
      MarkedCount(bits, o, free, n - 1);
    }
  }

  // ----- the order in which the search meets free blocks -----

  function Longs(bits: seq<bool>): nat { CeilDiv(|bits|, 32) }

  lemma LongsBounds(n: nat)
    ensures n <= CeilDiv(n, 32) * 32 < n + 32
    ensures CeilDiv(n, 32) == (n + 31) / 32
  {
    CeilDivBounds(n, 32);
  }

  /** Bits of long `w` that belong to blocks; the last long has fewer. */
  function MaxBits(bits: seq<bool>, w: nat): (n: nat)
    requires w < Longs(bits)
    ensures w * 32 + n <= |bits|
  {
    LongsBounds(|bits|);
    if |bits| - w * 32 < 32 then |bits| - w * 32 else 32
  }

  /** `bitmap_last_long_bits`. */
  lemma LastLongBits(bits: seq<bool>, w: nat)
    requires w < Longs(bits)
    ensures MaxBits(bits, w) ==
      if w == Longs(bits) - 1 then (if |bits| % 32 == 0 then 32 else |bits| % 32) else 32
  {
    LongsBounds(|bits|);
  }

  /** The free blocks among the first `k` bits of long `w`, ascending. */
  function WordFree(base: nat, bits: seq<bool>, w: nat, k: nat): seq<nat>
    requires w * 32 + k <= |bits|
  {
    if k == 0 then [] else
      WordFree(base, bits, w, k - 1) + if bits[w * 32 + k - 1] then [base + w * 32 + k - 1] else []
  }

  /** The long visited `n` steps after `start`, wrapping around once. */
  function Rotated(bits: seq<bool>, start: nat, n: nat): (w: nat)
    requires start < Longs(bits) && n < Longs(bits)
    ensures w < Longs(bits)
  {
    if start + n < Longs(bits) then start + n else (start + n) - Longs(bits)
  }

  /** All free blocks met in the first `n` longs from `start` on. */
  function Scan(base: nat, bits: seq<bool>, start: nat, n: nat): seq<nat>
    requires start < Longs(bits) && n <= Longs(bits)
  {
    if n == 0 then [] else
      var w := Rotated(bits, start, n - 1);
      Scan(base, bits, start, n - 1) + WordFree(base, bits, w, MaxBits(bits, w))
  }

  lemma {:induction false} ScanPrefix(base: nat, bits: seq<bool>, start: nat, n: nat, m: nat)
    requires start < Longs(bits) && n <= m <= Longs(bits)
    ensures Scan(base, bits, start, n) <= Scan(base, bits, start, m)
    decreases m
  {
    if n < m {
      ScanPrefix(base, bits, start, n, m - 1);
    }
  }

  lemma {:induction false} WordFreePrefix(base: nat, bits: seq<bool>, w: nat, n: nat, m: nat)
    requires n <= m && w * 32 + m <= |bits|
    ensures WordFree(base, bits, w, n) <= WordFree(base, bits, w, m)
    decreases m
  {
    if n < m {
      WordFreePrefix(base, bits, w, n, m - 1);
    }
  }

  /** A zero long has nothing to offer. */
  lemma {:induction false} ZeroWord(g: Device.Geometry, data: seq<byte>, w: nat, k: nat)
    requires g.Valid() && Fits(g, data) && w * 32 + k <= NumBits(g) && k <= 32 && w * 4 + 4 <= |data|
    requires LongAt(data, w * 4) == 0
    ensures WordFree(g.reserved, Bits(g, data), w, k) == []
  {
    if k > 0 {
      ZeroWord(g, data, w, k - 1);
      BitOfWord(g, data, w, k - 1);
      ZeroHasNoBit(k - 1);
    }
  }

  lemma BitOfWord(g: Device.Geometry, data: seq<byte>, w: nat, k: nat)
    requires g.Valid() && Fits(g, data) && k < 32 && w * 32 + k < NumBits(g) && w * 4 + 4 <= |data|
    ensures Bits(g, data)[w * 32 + k] == HasBit(LongAt(data, w * 4), k)
  {
    assert (w * 32 + k) / 32 == w && (w * 32 + k) % 32 == k;
    FirstBitsAt(data, NumBits(g), w * 32 + k);
  }

  lemma {:induction false} WordFreeElems(base: nat, bits: seq<bool>, w: nat, k: nat)
    requires w * 32 + k <= |bits|
    ensures Seqs.Distinct(WordFree(base, bits, w, k))
    ensures forall b :: b in WordFree(base, bits, w, k) <==>
      b in FreeSet(base, bits) && base + w * 32 <= b < base + w * 32 + k
  {
    if k > 0 {
      WordFreeElems(base, bits, w, k - 1);
      assert base + w * 32 + k - 1 !in WordFree(base, bits, w, k - 1);
    }
  }

  lemma {:induction false} ScanElems(base: nat, bits: seq<bool>, start: nat, n: nat)
    requires start < Longs(bits) && n <= Longs(bits)
    ensures Seqs.Distinct(Scan(base, bits, start, n))
    ensures forall b :: b in Scan(base, bits, start, n) <==>
      b in FreeSet(base, bits) && exists k :: 0 <= k < n && Rotated(bits, start, k) == (b - base) / 32
  {
    if n > 0 {
      ScanElems(base, bits, start, n - 1);
      var w := Rotated(bits, start, n - 1);
      var last := WordFree(base, bits, w, MaxBits(bits, w));
      WordFreeElems(base, bits, w, MaxBits(bits, w));
      assert forall b :: b in last <==> b in FreeSet(base, bits) && (b - base) / 32 == w;
      Seqs.DistinctConcat(Scan(base, bits, start, n - 1), last);
    }
  }

  /** One full turn meets every free block exactly once, padding bits never. */
  lemma ScanIsFreeSet(base: nat, bits: seq<bool>, start: nat)
    requires start < Longs(bits)
    ensures Seqs.Distinct(Scan(base, bits, start, Longs(bits)))
    ensures Seqs.Elems(Scan(base, bits, start, Longs(bits))) == FreeSet(base, bits)
    ensures |Scan(base, bits, start, Longs(bits))| == |FreeSet(base, bits)|
  {
    var n := Longs(bits);
    ScanElems(base, bits, start, n);
    forall b | b in FreeSet(base, bits) ensures b in Scan(base, bits, start, n) {
      LongsBounds(|bits|);
      var w := (b - base) / 32;
      var k := if start <= w then w - start else w + n - start;
      assert Rotated(bits, start, k) == w && 0 <= k < n;
    }
    assert Seqs.Elems(Scan(base, bits, start, n)) == FreeSet(base, bits);
    Seqs.DistinctCard(Scan(base, bits, start, n));
  }

  /** The search meets `a` before `b`: blocks from `cut` on in ascending order, then those below. */
  predicate Before(cut: nat, a: nat, b: nat) {
    if a >= cut then b < cut || a < b else a < b < cut
  }

  ghost predicate InOrder(cut: nat, s: seq<nat>) {
    forall i, j :: 0 <= i < j < |s| ==> Before(cut, s[i], s[j])
  }

  predicate Ascends(s: seq<nat>) { forall i, j :: 0 <= i < j < |s| ==> s[i] < s[j] }

  lemma {:induction false} WordFreeAscends(base: nat, bits: seq<bool>, w: nat, k: nat)
    requires w * 32 + k <= |bits|
    ensures Ascends(WordFree(base, bits, w, k))
  {
    if k > 0 {
      WordFreeAscends(base, bits, w, k - 1);
      WordFreeElems(base, bits, w, k - 1);
      var s, r := WordFree(base, bits, w, k - 1), WordFree(base, bits, w, k);
      assert s <= r && (|r| == |s| || (|r| == |s| + 1 && r[|s|] == base + w * 32 + k - 1));
      forall i, j | 0 <= i < j < |r| ensures r[i] < r[j] { assert s[i] in s; }
    }
  }

  /** The scan from long `start` meets the free blocks in this order. */
  lemma {:induction false} ScanInOrder(base: nat, bits: seq<bool>, start: nat, n: nat)
    requires start < Longs(bits) && n <= Longs(bits)
    ensures InOrder(base + 32 * start, Scan(base, bits, start, n))
  {
    hide WordFree;
    if n > 0 {
      ScanInOrder(base, bits, start, n - 1);
      ScanElems(base, bits, start, n - 1);
      var w := Rotated(bits, start, n - 1);
      WordFreeAscends(base, bits, w, MaxBits(bits, w));
      WordFreeElems(base, bits, w, MaxBits(bits, w));
      ScanStepInOrder(base, bits, start, n, Scan(base, bits, start, n - 1), WordFree(base, bits, w, MaxBits(bits, w)));
    }
  }

  lemma ScanStepInOrder(base: nat, bits: seq<bool>, start: nat, n: nat, s: seq<nat>, t: seq<nat>)
    requires start < Longs(bits) && 0 < n <= Longs(bits) && InOrder(base + 32 * start, s)
    requires forall b :: b in s ==>
      b >= base && exists k :: 0 <= k < n - 1 && Rotated(bits, start, k) == (b - base) / 32
    requires var w := Rotated(bits, start, n - 1); forall b :: b in t ==> base + w * 32 <= b < base + w * 32 + 32
    requires Ascends(t)
    ensures InOrder(base + 32 * start, s + t)
  {
    hide Longs;
    var cut, r := base + 32 * start, s + t;
    forall i, j | 0 <= i < j < |r| ensures Before(cut, r[i], r[j]) {
      if i < |s| <= j {
        assert s[i] in s && t[j - |s|] in t;
      } else if |s| <= i {
        assert t[i - |s|] in t && t[j - |s|] in t;
      }
    }
  }

  function Capped(s: seq<nat>, num: nat): seq<nat> { if 0 < num <= |s| then s[..num] else s }

  /** Stopping at `num` blocks after any long is stopping at `num` of all of them. */
  lemma CappedScan(base: nat, bits: seq<bool>, start: nat, n: nat, num: nat)
    requires start < Longs(bits) && n < Longs(bits)
    ensures var c := Capped(Scan(base, bits, start, n + 1), num);
      if 0 < num == |c| then FirstFree(base, bits, start, num) == Some(c)
      else c == Scan(base, bits, start, n + 1) && (num == 0 || |c| < num)
  {
    ScanPrefix(base, bits, start, n + 1, Longs(bits));
    var s, t := Scan(base, bits, start, n + 1), Scan(base, bits, start, Longs(bits));
    if 0 < num <= |s| {
      assert s[..num] == t[..num];
    }
  }

  /** The answer of `find_n_free(num)` from search position `start`. */
  function FirstFree(base: nat, bits: seq<bool>, start: nat, num: nat): Option<seq<nat>>
    requires start < Longs(bits)
  {
    var all := Scan(base, bits, start, Longs(bits));
    if 0 < num <= |all| then Some(all[..num]) else None
  }

  lemma ScanNext(base: nat, bits: seq<bool>, start: nat, n: nat)
    requires start < Longs(bits) && n < Longs(bits)
    ensures var w := Rotated(bits, start, n);
      Scan(base, bits, start, n + 1) == Scan(base, bits, start, n) + WordFree(base, bits, w, MaxBits(bits, w))
  {
    hide Rotated, WordFree;
  }

  lemma ScanEnds(base: nat, bits: seq<bool>, start: nat, num: nat)
    requires start < Longs(bits)
    ensures Scan(base, bits, start, 0) == []
    ensures num == 0 || |Scan(base, bits, start, Longs(bits))| < num <==> FirstFree(base, bits, start, num).None?
  {
  }

  /** The search is exact from every start: `num` distinct free blocks, and None exactly when
      fewer than `num` blocks are free (or `num` is 0). */
  lemma FirstFreeExact(base: nat, bits: seq<bool>, start: nat, num: nat)
    requires start < Longs(bits)
    ensures var r := FirstFree(base, bits, start, num);
      && (r.None? <==> num == 0 || |FreeSet(base, bits)| < num)
      && (r.Some? ==> Seqs.Distinct(r.value) && |r.value| == num && Seqs.Elems(r.value) <= FreeSet(base, bits))
  {
    ScanIsFreeSet(base, bits, start);
    var all := Scan(base, bits, start, Longs(bits));
    if num <= |all| {
      assert Seqs.Elems(all[..num]) <= Seqs.Elems(all);
    }
  }

  /** The blocks found are the first in the order of the search: they come in this order, and every other free
      block comes after them. */
  lemma FirstFreeOrder(base: nat, bits: seq<bool>, start: nat, num: nat)
    requires start < Longs(bits) && FirstFree(base, bits, start, num).Some?
    ensures var r, cut := FirstFree(base, bits, start, num).value, base + 32 * start;
      && InOrder(cut, r)
      && forall f, b :: f in FreeSet(base, bits) && f !in r && b in r ==> Before(cut, b, f)
  {
    hide FreeSet, Scan;
    ScanIsFreeSet(base, bits, start);
    ScanInOrder(base, bits, start, Longs(bits));
    var all, r := Scan(base, bits, start, Longs(bits)), FirstFree(base, bits, start, num).value;
    forall f, b | f in FreeSet(base, bits) && f !in r && b in r ensures Before(base + 32 * start, b, f) {
      assert f in Seqs.Elems(all);
      assert forall k :: 0 <= k < num ==> all[k] == r[k] && r[k] in r;
      var i, j :| 0 <= i < |all| && 0 <= j < num && all[i] == f && all[j] == b;
    }
  }

  /** The block that completes the answer lies in the long just searched. */
  lemma LastFound(base: nat, bits: seq<bool>, w: nat, before: seq<nat>, num: nat)
    requires w < Longs(bits) && |before| < num
    requires |Capped(before + WordFree(base, bits, w, MaxBits(bits, w)), num)| == num
    ensures var last := Capped(before + WordFree(base, bits, w, MaxBits(bits, w)), num)[num - 1];
      last >= base && (last - base) / 32 == w
  {
    hide WordFree, FreeSet;
    var s := WordFree(base, bits, w, MaxBits(bits, w));
    WordFreeElems(base, bits, w, MaxBits(bits, w));
    assert s[num - 1 - |before|] in s;
  }

  /** The bit loop of `find_n_free` on one long: stops as soon as `num` blocks are collected. */
  method CollectBits(val: nat, maxBits: nat, base: nat, num: nat, before: seq<nat>,
                     ghost g: Device.Geometry, ghost data: seq<byte>, ghost w: nat) returns (result: seq<nat>)
    requires num == 0 || |before| < num
    requires g.Valid() && Fits(g, data) && w * 4 + 4 <= |data| && val == LongAt(data, w * 4)
    requires base == g.reserved + w * 32 && maxBits <= 32 && w * 32 + maxBits <= NumBits(g)
    ensures result == Capped(before + WordFree(g.reserved, Bits(g, data), w, maxBits), num)
  {
    ghost var bits := Bits(g, data);
    result := before;
    for bit := 0 to maxBits
      invariant result == before + WordFree(g.reserved, bits, w, bit)
      invariant num == 0 || |result| < num
    {
      BitOfWord(g, data, w, bit);
      if HasBit(val, bit) {
        result := result + [base + bit];
        if |result| == num {
          WordFreePrefix(g.reserved, bits, w, bit + 1, maxBits);
          return;
        }
      }
    }
  }
}
