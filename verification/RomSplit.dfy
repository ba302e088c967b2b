/** `RomSplitter`: take a module out of a ROM and undo its relocations, and why relocating inverts that. */
module RomSplit {
  import opened Bytes
  import opened Relocation

  datatype SplitError = OutsideData | BelowBase

  datatype Cleaned = Ok(data: seq<byte>) | Err(error: SplitError)

  /** `_clean_relocs` after the first `n` offsets. */
  function Clean(data: seq<byte>, relocs: seq<nat>, base: nat, n: nat): (r: Cleaned)
    requires n <= |relocs|
    ensures r.Ok? ==> |r.data| == |data|
  {
    if n == 0 then Ok(data) else
      var d := Clean(data, relocs, base, n - 1);
      if d.Err? then d else
        var off := relocs[n - 1];
        if off + 4 > |data| then Err(OutsideData)
        else if LongAt(d.data, off) < base then Err(BelowBase)
        else Ok(PutLong(d.data, off, LongAt(d.data, off) - base))
  }

  method CleanRelocs(data: array<byte>, relocs: seq<nat>, base: nat) returns (err: Option<SplitError>)
    modifies data
    ensures err == None <==> Clean(old(data[..]), relocs, base, |relocs|).Ok?
    ensures err == None ==> Clean(old(data[..]), relocs, base, |relocs|) == Ok(data[..])
    ensures err.Some? ==> Clean(old(data[..]), relocs, base, |relocs|) == Err(err.value)
  {
    hide LongAt, PutLong;
    ghost var start := data[..];
    for i := 0 to |relocs|
      invariant Clean(start, relocs, base, i) == Ok(data[..])
    {
      var off := relocs[i];
      if off + 4 > data.Length {
        CleanFails(start, relocs, base, i + 1, |relocs|);
        return Some(OutsideData);
      }
      var addr := LongAt(data[..], off);
      if addr < base {
        CleanFails(start, relocs, base, i + 1, |relocs|);
        return Some(BelowBase);
      }
      PackLong(data, off, addr - base);
    }
    err := None;
  }

  lemma {:induction false} CleanFails(data: seq<byte>, relocs: seq<nat>, base: nat, i: nat, n: nat)
    requires i <= n <= |relocs| && Clean(data, relocs, base, i).Err?
    ensures Clean(data, relocs, base, n) == Clean(data, relocs, base, i)
    decreases n
  {
    hide LongAt, PutLong;
    if i < n { CleanFails(data, relocs, base, i, n - 1); }
  }

  /** Offsets that do not overlap are cleaned exactly when each lies in the data and its address is not below the
      base. */
  lemma {:induction false} CleansIff(data: seq<byte>, relocs: seq<nat>, base: nat, n: nat)
    requires n <= |relocs|
    requires forall i, j :: 0 <= i < j < |relocs| ==> relocs[i] + 4 <= relocs[j] || relocs[j] + 4 <= relocs[i]
    ensures Clean(data, relocs, base, n).Ok? <==>
      forall i :: 0 <= i < n ==> relocs[i] + 4 <= |data| && LongAt(data, relocs[i]) >= base
  {
    hide LongAt, PutLong;
    if n > 0 {
      CleansIff(data, relocs, base, n - 1);
      var off := relocs[n - 1];
      if Clean(data, relocs, base, n - 1).Ok? && off + 4 <= |data| {
        var d := Clean(data, relocs, base, n - 1).data;
        forall p | off <= p < off + 4 ensures d[p] == data[p] { CleanKeeps(data, relocs, base, n - 1, p); }
        assert d[off..off + 4] == data[off..off + 4];
        LongAtSame(d, off, data, off);
      }
    }
  }

  lemma {:induction false} CleanKeeps(data: seq<byte>, relocs: seq<nat>, base: nat, n: nat, p: nat)
    requires n <= |relocs| && p < |data| && Clean(data, relocs, base, n).Ok?
    requires forall i :: 0 <= i < n ==> p < relocs[i] || relocs[i] + 4 <= p
    ensures Clean(data, relocs, base, n).data[p] == data[p]
  {
    hide LongAt, PutLong;
    if n > 0 { CleanKeeps(data, relocs, base, n - 1, p); }
  }

  /** The first offset that cannot be cleaned decides the error. */
  lemma CleanFailsAt(data: seq<byte>, relocs: seq<nat>, base: nat, i: nat)
    requires i < |relocs|
    requires forall j, k :: 0 <= j < k < |relocs| ==> relocs[j] + 4 <= relocs[k] || relocs[k] + 4 <= relocs[j]
    requires relocs[i] + 4 <= |data| ==> LongAt(data, relocs[i]) < base
    requires forall j :: 0 <= j < i ==> relocs[j] + 4 <= |data| && LongAt(data, relocs[j]) >= base
    ensures Clean(data, relocs, base, |relocs|) == Err(if relocs[i] + 4 > |data| then OutsideData else BelowBase)
  {
    hide LongAt, PutLong;
    CleansIff(data, relocs, base, i);
    CleansIff(data, relocs, base, i + 1);
    CleanFails(data, relocs, base, i + 1, |relocs|);
  }

  // ----- the module as a binary image -----

  function EntryRelocs(relocs: seq<nat>): (r: seq<Reloc>)
    ensures |r| == |relocs| && forall i :: 0 <= i < |r| ==> r[i] == Reloc(relocs[i], false, 0)
  {
    seq(|relocs|, i requires 0 <= i < |relocs| => Reloc(relocs[i], false, 0))
  }

  /** `extract_bin_img`, without fixes and patches: one code segment that relocates to itself. */
  function Image(data: seq<byte>, relocs: seq<nat>): seq<Segment> {
    [Segment(|data|, data, if relocs == [] then [] else [Relocs(0, EntryRelocs(relocs))])]
  }

  /** Offsets inside the data, no two longs overlapping. */
  ghost predicate Separate(data: seq<byte>, relocs: seq<nat>) {
    && (forall i :: 0 <= i < |relocs| ==> relocs[i] + 4 <= |data|)
    && (forall i, j :: 0 <= i < j < |relocs| ==> relocs[i] + 4 <= relocs[j] || relocs[j] + 4 <= relocs[i])
  }

  ghost predicate AboveBase(data: seq<byte>, relocs: seq<nat>, base: nat) {
    forall i :: 0 <= i < |relocs| && relocs[i] + 4 <= |data| ==> LongAt(data, relocs[i]) >= base
  }

  ghost predicate SameOutside(s: seq<byte>, t: seq<byte>, relocs: seq<nat>) {
    |s| == |t| && forall k :: 0 <= k < |s| && Outside(relocs, k) ==> s[k] == t[k]
  }

  predicate Outside(relocs: seq<nat>, k: int) {
    forall i :: 0 <= i < |relocs| ==> k < relocs[i] || relocs[i] + 4 <= k
  }

  /** `s` is `data` with the addresses from the `j`-th on made relative, those before as they were. */
  ghost predicate Partly(s: seq<byte>, data: seq<byte>, relocs: seq<nat>, base: nat, lo: nat, hi: nat)
    requires Separate(data, relocs)
  {
    && SameOutside(data, s, relocs)
    && forall i :: 0 <= i < |relocs| ==>
      LongAt(s, relocs[i]) as int == LongAt(data, relocs[i]) as int - if lo <= i < hi then base else 0
  }

  /** Writing one of the longs leaves the others. */
  lemma PutOne(s: seq<byte>, data: seq<byte>, relocs: seq<nat>, j: nat, v: long)
    requires Separate(data, relocs) && |s| == |data| && j < |relocs|
    ensures var r := PutLong(s, relocs[j], v);
      && LongAt(r, relocs[j]) == v
      && (forall i :: 0 <= i < |relocs| && i != j ==> LongAt(r, relocs[i]) == LongAt(s, relocs[i]))
      && (SameOutside(data, s, relocs) ==> SameOutside(data, r, relocs))
  {
    hide LongAt;
    var r := PutLong(s, relocs[j], v);
    forall i | 0 <= i < |relocs| && i != j ensures LongAt(r, relocs[i]) == LongAt(s, relocs[i]) {
      var o := relocs[i];
      assert if i < j then o + 4 <= relocs[j] || relocs[j] + 4 <= o else relocs[j] + 4 <= o || o + 4 <= relocs[j];
      assert r[o..o + 4] == s[o..o + 4];
      LongAtSame(r, o, s, o);
    }
  }

  /** Cleaning succeeds and makes exactly the listed longs relative. */
  lemma {:induction false} CleanPartly(data: seq<byte>, relocs: seq<nat>, base: nat, n: nat)
    requires Separate(data, relocs) && AboveBase(data, relocs, base) && n <= |relocs|
    ensures Clean(data, relocs, base, n).Ok? && Partly(Clean(data, relocs, base, n).data, data, relocs, base, 0, n)
  {
    hide LongAt, PutLong;
    if n > 0 {
      CleanPartly(data, relocs, base, n - 1);
      var s := Clean(data, relocs, base, n - 1).data;
      assert relocs[n - 1] + 4 <= |data| && LongAt(s, relocs[n - 1]) == LongAt(data, relocs[n - 1]) >= base;
      PutOne(s, data, relocs, n - 1, LongAt(s, relocs[n - 1]) - base);
    }
  }

  /** Nothing is relative any more: the original bytes. */
  lemma NothingLeft(s: seq<byte>, data: seq<byte>, relocs: seq<nat>, base: nat, n: nat)
    requires Separate(data, relocs) && Partly(s, data, relocs, base, n, n)
    ensures s == data
  {
    hide LongAt;
    forall k | 0 <= k < |data| ensures s[k] == data[k] {
      if !Outside(relocs, k) {
        var i :| 0 <= i < |relocs| && relocs[i] <= k < relocs[i] + 4;
        var o := relocs[i];
        LongAtInjective(s, o, data, o);
        assert s[o..o + 4][k - o] == data[o..o + 4][k - o];
      }
    }
  }

  /** An address the relocator can put back: below 2^31, or at least 2^31 above the module. */
  predicate Restorable(addr: long, base: nat) { addr < 0x8000_0000 || addr - base >= 0x8000_0000 }

  ghost predicate AllRestorable(data: seq<byte>, relocs: seq<nat>, base: nat, n: nat)
    requires Separate(data, relocs) && n <= |relocs|
  {
    forall i :: 0 <= i < n ==> Restorable(LongAt(data, relocs[i]), base)
  }

  /** Putting one relative address back. */
  lemma RestoreOne(s: seq<byte>, off: nat, base: nat, addr: long)
    requires off + 4 <= |s| && base <= addr && LongAt(s, off) == addr - base
    ensures var r := RelocOne(s, Reloc(off, false, 0), base, base, 0);
      if Restorable(addr, base) then r == Some(PutLong(s, off, addr)) else r.None?
  {
  }

  lemma {:induction false} RestorePartly(s: seq<byte>, data: seq<byte>, relocs: seq<nat>, base: nat, n: nat)
    requires Separate(data, relocs) && AboveBase(data, relocs, base) && n <= |relocs|
    requires Partly(s, data, relocs, base, 0, |relocs|)
    ensures var r := RelocList(s, EntryRelocs(relocs), n, base, base, 0);
      && (r.Some? <==> AllRestorable(data, relocs, base, n))
      && (r.Some? ==> Partly(r.value, data, relocs, base, n, |relocs|))
  {
    hide LongAt, PutLong, RelocOne, Restorable;
    if n > 0 {
      RestorePartly(s, data, relocs, base, n - 1);
      var r := RelocList(s, EntryRelocs(relocs), n - 1, base, base, 0);
      if r.Some? {
        var off := relocs[n - 1];
        assert off + 4 <= |data|;
        RestoreOne(r.value, off, base, LongAt(data, off));
        PutOne(r.value, data, relocs, n - 1, LongAt(data, off));
      }
    }
  }

  /** Split, then relocate at the module's own address: the original bytes come back exactly when every
      address can be put back; otherwise relocating fails. */
  lemma SplitThenRelocate(data: seq<byte>, relocs: seq<nat>, base: nat)
    requires Separate(data, relocs) && AboveBase(data, relocs, base)
    ensures var c := Clean(data, relocs, base, |relocs|);
      c.Ok? && WellFormed(Image(c.data, relocs))
      && RelocEach(Image(c.data, relocs), [base], 1)
        == if AllRestorable(data, relocs, base, |relocs|) then Some([data]) else None
  {
    hide LongAt, PutLong, RelocOne, Restorable;
    CleanPartly(data, relocs, base, |relocs|);
    var s := Clean(data, relocs, base, |relocs|).data;
    RestorePartly(s, data, relocs, base, |relocs|);
    var r := RelocList(s, EntryRelocs(relocs), |relocs|, base, base, 0);
    if r.Some? { NothingLeft(r.value, data, relocs, base, |relocs|); }
    ImageReloc(s, relocs, base);
  }

  /** Relocating the image is relocating its one list of entries. */
  lemma ImageReloc(s: seq<byte>, relocs: seq<nat>, base: nat)
    ensures WellFormed(Image(s, relocs))
    ensures RelocEach(Image(s, relocs), [base], 1)
      == var r := RelocList(s, EntryRelocs(relocs), |relocs|, base, base, 0); if r.None? then None else Some([r.value])
  {
    hide RelocOne;
    var segs, es := Image(s, relocs), EntryRelocs(relocs);
    assert SegOk(segs, 0);
    assert SegBytes(segs[0]) == s;
    if relocs == [] {
      assert RelocData(s, [], 0, [base], 0, 0) == Some(s) == RelocList(s, es, 0, base, base, 0);
    } else {
      assert RelocData(s, [Relocs(0, es)], 0, [base], 0, 0) == Some(s);
      assert RelocData(s, [Relocs(0, es)], 1, [base], 0, 0) == RelocList(s, es, |es|, base, base, 0);
    }
    var r := RelocList(s, es, |es|, base, base, 0);
    assert RelocSeg(segs, [base], 0) == r;
    var none := RelocEach(segs, [base], 0);
    assert none == Some([]);
    if r.Some? { assert none.value + [r.value] == [r.value]; }
  }
}
