/** The cylinder arithmetic of `RDisk`: which cylinders are free, and where a partition fits. */
module CylRanges {
  import opened Bytes

  /** An inclusive range of cylinders. */
  datatype Range = Range(lo: int, hi: int) {
    predicate Has(c: int) { lo <= c <= hi }
  }

  predicate Apart(a: Range, b: Range) { a.hi < b.lo || a.lo > b.hi }

  ghost predicate Covered(parts: seq<Range>, n: nat, c: int)
    requires n <= |parts|
  {
    exists i :: 0 <= i < n && parts[i].Has(c)
  }

  ghost predicate InRanges(free: seq<Range>, c: int) {
    exists i :: 0 <= i < |free| && free[i].Has(c)
  }

  /** Non-empty partitions, inside the logical range and pairwise disjoint; their order is free. */
  ghost predicate Layout(log: Range, parts: seq<Range>) {
    && (forall i :: 0 <= i < |parts| ==> log.lo <= parts[i].lo <= parts[i].hi <= log.hi)
    && (forall i, j :: 0 <= i < j < |parts| ==> Apart(parts[i], parts[j]))
  }

  /** `check_cyl_range` against all partitions. */
  predicate Accepts(log: Range, parts: seq<Range>, r: Range) {
    r.lo <= r.hi && log.lo <= r.lo && r.hi <= log.hi && AllApart(parts, |parts|, r)
  }

  predicate AllApart(parts: seq<Range>, n: nat, r: Range)
    requires n <= |parts|
  {
    n > 0 ==> AllApart(parts, n - 1, r) && Apart(r, parts[n - 1])
  }

  lemma {:induction false} AllApartAt(parts: seq<Range>, n: nat, r: Range, i: nat)
    requires i < n <= |parts| && AllApart(parts, n, r)
    ensures Apart(r, parts[i])
  {
    if i < n - 1 { AllApartAt(parts, n - 1, r, i); }
  }

  lemma {:induction false} AllApartIf(parts: seq<Range>, n: nat, r: Range)
    requires n <= |parts| && forall i :: 0 <= i < n ==> Apart(r, parts[i])
    ensures AllApart(parts, n, r)
  {
    if n > 0 { AllApartIf(parts, n - 1, r); }
  }

  /** A range is accepted exactly when each of its cylinders is in the logical range and in no
      partition. */
  lemma AcceptsIffFree(log: Range, parts: seq<Range>, r: Range)
    requires Layout(log, parts)
    ensures Accepts(log, parts, r) <==>
      r.lo <= r.hi && forall c :: r.Has(c) ==> log.Has(c) && !Covered(parts, |parts|, c)
  {
    if Accepts(log, parts, r) {
      forall c | r.Has(c) ensures log.Has(c) && !Covered(parts, |parts|, c) {
        forall i | 0 <= i < |parts| ensures !parts[i].Has(c) { AllApartAt(parts, |parts|, r, i); }
      }
    }
    if r.lo <= r.hi && forall c :: r.Has(c) ==> log.Has(c) && !Covered(parts, |parts|, c) {
      assert r.Has(r.lo) && r.Has(r.hi);
      forall i | 0 <= i < |parts| ensures Apart(r, parts[i]) {
        var c := if r.lo <= parts[i].lo then parts[i].lo else r.lo;
        assert parts[i].Has(c) && r.Has(c) ==> Covered(parts, |parts|, c);
      }
      AllApartIf(parts, |parts|, r);
    }
  }

  // ----- free ranges -----

  /** What is left of free range `r` when partition `p` is taken out, case by case as the code has it. */
  function Cut(r: Range, p: Range): seq<Range> {
    if p.lo == r.lo && p.hi == r.hi then []
    else if p.lo == r.lo then [Range(p.hi + 1, r.hi)]
    else if p.hi == r.hi then [Range(r.lo, p.lo - 1)]
    else if p.lo > r.lo && p.hi < r.hi then [Range(r.lo, p.lo - 1), Range(p.hi + 1, r.hi)]
    else [r]
  }

  function CutAll(free: seq<Range>, n: nat, p: Range): seq<Range>
    requires n <= |free|
  {
    if n == 0 then [] else CutAll(free, n - 1, p) + Cut(free[n - 1], p)
  }

  function FreeAfter(log: Range, parts: seq<Range>, n: nat): seq<Range>
    requires n <= |parts|
  {
    if n == 0 then [log] else
      var free := FreeAfter(log, parts, n - 1);
      CutAll(free, |free|, parts[n - 1])
  }

  /** Sorted, non-empty ranges with at least one cylinder between neighbours. */
  ghost predicate Separated(free: seq<Range>) {
    && (forall i :: 0 <= i < |free| ==> free[i].lo <= free[i].hi)
    && (forall i, j :: 0 <= i < j < |free| ==> free[i].hi + 1 < free[j].lo)
  }

  /** Sorted maximal runs of exactly the cylinders that are in the logical range and uncovered. */
  ghost predicate Exact(log: Range, parts: seq<Range>, n: nat, free: seq<Range>)
    requires n <= |parts|
  {
    Separated(free) && forall c :: InRanges(free, c) <==> log.Has(c) && !Covered(parts, n, c)
  }

  lemma SameRange(free: seq<Range>, i: nat, j: nat, c: int)
    requires Separated(free) && i < |free| && j < |free| && free[i].Has(c) && free[j].Has(c + 1)
    ensures i == j
  {
  }

  lemma SeparatedAt(free: seq<Range>, i: nat, j: nat)
    requires Separated(free) && i <= j < |free|
    ensures free[i].lo <= free[i].hi && free[j].lo <= free[j].hi && (i < j ==> free[i].hi + 1 < free[j].lo)
  {
  }

  /** A run of cylinders that are all in `free` lies in one of its ranges. */
  lemma {:induction false} RunInOne(free: seq<Range>, r: Range) returns (k: nat)
    requires Separated(free) && r.lo <= r.hi && forall c :: r.Has(c) ==> InRanges(free, c)
    ensures k < |free| && free[k].lo <= r.lo && r.hi <= free[k].hi
    decreases r.hi - r.lo
  {
    assert r.Has(r.hi);
    if r.lo == r.hi {
      k :| 0 <= k < |free| && free[k].Has(r.lo);
    } else {
      k := RunInOne(free, Range(r.lo, r.hi - 1));
      var j :| 0 <= j < |free| && free[j].Has(r.hi);
      assert free[k].Has(r.hi - 1);
      SameRange(free, k, j, r.hi - 1);
    }
  }

  /** Ranges other than the one that contains `p` are left alone. */
  lemma {:induction false} CutAllParts(free: seq<Range>, n: nat, p: Range, k: nat)
    requires Separated(free) && k < |free| && n <= |free| && p.lo <= p.hi
    requires free[k].lo <= p.lo && p.hi <= free[k].hi
    ensures CutAll(free, n, p) == if n <= k then free[..n] else free[..k] + Cut(free[k], p) + free[k + 1..n]
  {
    hide Cut, Separated;
    if n > 0 {
      CutAllParts(free, n - 1, p, k);
      if n - 1 < k {
        SeparatedAt(free, n - 1, k);
        CutMisses(free[n - 1], p);
        assert free[..n] == free[..n - 1] + [free[n - 1]];
      } else if n - 1 > k {
        SeparatedAt(free, k, n - 1);
        CutMisses(free[n - 1], p);
        assert free[k + 1..n] == free[k + 1..n - 1] + [free[n - 1]];
      }
    }
  }

  lemma CutMisses(r: Range, p: Range)
    requires r.lo <= r.hi && p.lo <= p.hi && (r.hi < p.lo || p.hi < r.lo)
    ensures Cut(r, p) == [r]
  {
  }

  lemma CutExact(log: Range, parts: seq<Range>, n: nat, free: seq<Range>)
    requires Layout(log, parts) && n < |parts| && Exact(log, parts, n, free)
    ensures Exact(log, parts, n + 1, CutAll(free, |free|, parts[n]))
  {
    hide Separated, Cut, InRanges, Covered;
    var p := parts[n];
    forall c | p.Has(c) ensures InRanges(free, c) { StillFree(log, parts, n, c); }
    var k := RunInOne(free, p);
    CutAllParts(free, |free|, p, k);
    assert free[k + 1..|free|] == free[k + 1..];
    CutSeparated(free, k, p);
    forall c ensures InRanges(CutAll(free, |free|, p), c) <==> log.Has(c) && !Covered(parts, n + 1, c) {
      CutHas(free, k, p, c);
      CoveredNext(parts, n, c);
    }
  }

  lemma StillFree(log: Range, parts: seq<Range>, n: nat, c: int)
    requires Layout(log, parts) && n < |parts| && parts[n].Has(c)
    ensures log.Has(c) && !Covered(parts, n, c)
  {
    forall i | 0 <= i < n ensures !parts[i].Has(c) { assert Apart(parts[i], parts[n]); }
  }

  lemma CoveredNext(parts: seq<Range>, n: nat, c: int)
    requires n < |parts|
    ensures Covered(parts, n + 1, c) <==> Covered(parts, n, c) || parts[n].Has(c)
  {
  }

  lemma CutSeparated(free: seq<Range>, k: nat, p: Range)
    requires Separated(free) && k < |free| && p.lo <= p.hi && free[k].lo <= p.lo && p.hi <= free[k].hi
    ensures Separated(free[..k] + Cut(free[k], p) + free[k + 1..])
  {
    var a, m, b := free[..k], Cut(free[k], p), free[k + 1..];
    var r := a + m + b;
    forall i, j | 0 <= i < j < |r| ensures r[i].hi + 1 < r[j].lo {
      if i < k <= j < k + |m| {
        assert free[i].hi + 1 < free[k].lo;
      } else if k <= i < k + |m| <= j {
        assert r[j] == free[j - |m| + 1] && free[k].hi + 1 < free[j - |m| + 1].lo;
      }
    }
  }

  lemma CutHas(free: seq<Range>, k: nat, p: Range, c: int)
    requires Separated(free) && k < |free| && p.lo <= p.hi && free[k].lo <= p.lo && p.hi <= free[k].hi
    ensures InRanges(free[..k] + Cut(free[k], p) + free[k + 1..], c) <==> InRanges(free, c) && !p.Has(c)
  {
    hide Cut, InRanges;
    var a, m, b := free[..k], Cut(free[k], p), free[k + 1..];
    InConcat(a + m, b, c);
    InConcat(a, m, c);
    assert free == a + [free[k]] + b;
    InConcat(a + [free[k]], b, c);
    InConcat(a, [free[k]], c);
    CutOne(free[k], p, c);
    OutsideCut(free, k, p, c);
  }

  lemma InConcat(a: seq<Range>, b: seq<Range>, c: int)
    ensures InRanges(a + b, c) <==> InRanges(a, c) || InRanges(b, c)
  {
    if InRanges(a, c) {
      var i :| 0 <= i < |a| && a[i].Has(c);
      assert (a + b)[i].Has(c);
    }
    if InRanges(b, c) {
      var i :| 0 <= i < |b| && b[i].Has(c);
      assert (a + b)[|a| + i].Has(c);
    }
  }

  lemma CutOne(r: Range, p: Range, c: int)
    requires p.lo <= p.hi && r.lo <= p.lo && p.hi <= r.hi
    ensures InRanges(Cut(r, p), c) <==> r.Has(c) && !p.Has(c)
    ensures InRanges([r], c) <==> r.Has(c)
  {
    var m := Cut(r, p);
    assert InRanges([r], c) <==> [r][0].Has(c);
    if |m| == 1 { assert InRanges(m, c) <==> m[0].Has(c); }
    if |m| == 2 { assert InRanges(m, c) <==> m[0].Has(c) || m[1].Has(c); }
  }

  /** The other ranges have no cylinder of the partition. */
  lemma OutsideCut(free: seq<Range>, k: nat, p: Range, c: int)
    requires Separated(free) && k < |free| && free[k].lo <= p.lo && p.hi <= free[k].hi
    ensures p.Has(c) ==> !InRanges(free[..k], c) && !InRanges(free[k + 1..], c)
  {
    if p.Has(c) {
      var a, b := free[..k], free[k + 1..];
      forall i | 0 <= i < |a| ensures !a[i].Has(c) { SeparatedAt(free, i, k); }
      forall i | 0 <= i < |b| ensures !b[i].Has(c) { SeparatedAt(free, k, k + 1 + i); }
    }
  }

  /** `get_free_cyl_ranges` is exact for a non-empty logical range, whatever order the partitions are in. */
  lemma {:induction false} FreeExact(log: Range, parts: seq<Range>, n: nat)
    requires Layout(log, parts) && n <= |parts| && log.lo <= log.hi
    ensures Exact(log, parts, n, FreeAfter(log, parts, n))
  {
    if n == 0 {
      var free := [log];
      forall c ensures InRanges(free, c) <==> log.Has(c) {
        assert free[0].Has(c) <==> log.Has(c);
      }
    } else {
      FreeExact(log, parts, n - 1);
      CutExact(log, parts, n - 1, FreeAfter(log, parts, n - 1));
    }
  }

  /** The ranges are determined: no other list is sorted, separated and covers the same cylinders. */
  lemma ExactUnique(log: Range, parts: seq<Range>, a: seq<Range>, b: seq<Range>)
    requires Exact(log, parts, |parts|, a) && Exact(log, parts, |parts|, b)
    ensures a == b
  {
    SameCover(a, b);
  }

  lemma {:induction false} SameCover(a: seq<Range>, b: seq<Range>)
    requires Separated(a) && Separated(b) && forall c :: InRanges(a, c) <==> InRanges(b, c)
    ensures a == b
    decreases |a|
  {
    hide InRanges;
    HasFirst(a);
    HasFirst(b);
    if a != [] && b != [] {
      FirstSame(a, b);
      FirstSame(b, a);
      TailCover(a, b);
      SameCover(a[1..], b[1..]);
      assert a == [a[0]] + a[1..] && b == [b[0]] + b[1..];
    }
  }

  lemma TailCover(a: seq<Range>, b: seq<Range>)
    requires Separated(a) && Separated(b) && a != [] && b != [] && a[0] == b[0]
    requires forall c :: InRanges(a, c) <==> InRanges(b, c)
    ensures forall c :: InRanges(a[1..], c) <==> InRanges(b[1..], c)
  {
    hide InRanges, Separated;
    forall c ensures InRanges(a[1..], c) <==> InRanges(b[1..], c) {
      WithoutFirst(a, c);
      WithoutFirst(b, c);
    }
  }

  lemma HasFirst(a: seq<Range>)
    requires Separated(a)
    ensures a != [] ==> InRanges(a, a[0].lo)
    ensures a == [] ==> forall c :: !InRanges(a, c)
  {
    assert a != [] ==> a[0].Has(a[0].lo);
  }

  lemma FirstSame(a: seq<Range>, b: seq<Range>)
    requires Separated(a) && Separated(b) && a != [] && b != [] && forall c :: InRanges(a, c) ==> InRanges(b, c)
    requires forall c :: InRanges(b, c) ==> InRanges(a, c)
    ensures a[0] == b[0]
  {
    forall c | a[0].Has(c) ensures InRanges(b, c) { assert InRanges(a, c); }
    forall c | b[0].Has(c) ensures InRanges(a, c) { assert InRanges(b, c); }
    var k := RunInOne(b, a[0]);
    var j := RunInOne(a, b[0]);
    SeparatedAt(b, 0, k);
    SeparatedAt(a, 0, j);
  }

  lemma WithoutFirst(a: seq<Range>, c: int)
    requires Separated(a) && a != []
    ensures InRanges(a[1..], c) <==> InRanges(a, c) && !a[0].Has(c)
  {
    if InRanges(a[1..], c) {
      var i :| 0 <= i < |a[1..]| && a[1..][i].Has(c);
      assert a[i + 1].Has(c) && a[0].hi + 1 < a[i + 1].lo;
    }
    if InRanges(a, c) && !a[0].Has(c) {
      var i :| 0 <= i < |a| && a[i].Has(c);
      assert a[1..][i - 1].Has(c);
    }
  }

  // ----- the first fit -----

  /** `find_free_cyl_range_start` over the ranges from index `i` on. */
  function FirstFit(free: seq<Range>, i: nat, num: int): Option<int>
    requires i <= |free|
    decreases |free| - i
  {
    if i == |free| then None
    else if num <= free[i].hi - free[i].lo + 1 then Some(free[i].lo)
    else FirstFit(free, i + 1, num)
  }

  lemma {:induction false} FirstFitAt(free: seq<Range>, i: nat, num: int) returns (k: nat)
    requires i <= |free|
    ensures i <= k <= |free| && forall j :: i <= j < k ==> num > free[j].hi - free[j].lo + 1
    ensures k < |free| ==> num <= free[k].hi - free[k].lo + 1
    ensures FirstFit(free, i, num) == if k < |free| then Some(free[k].lo) else None
    decreases |free| - i
  {
    k := i;
    if i < |free| && num > free[i].hi - free[i].lo + 1 {
      k := FirstFitAt(free, i + 1, num);
    }
  }

  /** A partition of `num` cylinders can start at `s`. */
  predicate Fits(log: Range, parts: seq<Range>, s: int, num: int) { Accepts(log, parts, Range(s, s + num - 1)) }

  /** For at least one cylinder the answer is the least start that `check_cyl_range` accepts, and
      None only if it accepts none. */
  lemma FirstFitLeast(log: Range, parts: seq<Range>, num: int)
    requires Layout(log, parts) && num >= 1
    ensures var r := FirstFit(FreeAfter(log, parts, |parts|), 0, num);
      && (r.Some? ==> Fits(log, parts, r.value, num))
      && (forall s :: Fits(log, parts, s, num) ==> r.Some? && r.value <= s)
  {
    var free := FreeAfter(log, parts, |parts|);
    NoRoom(log, parts);
    if log.lo > log.hi { return; }
    FreeExact(log, parts, |parts|);
    var k := FirstFitAt(free, 0, num);
    if k < |free| {
      FitIsFree(log, parts, free, k, num);
    }
    forall s | Fits(log, parts, s, num) ensures k < |free| && free[k].lo <= s {
      AcceptsIffFree(log, parts, Range(s, s + num - 1));
      var j := RunInOne(free, Range(s, s + num - 1));
      SeparatedAt(free, k, j);
    }
  }

  lemma NoRoom(log: Range, parts: seq<Range>)
    requires Layout(log, parts)
    ensures |parts| > 0 ==> log.lo <= log.hi
  {
    if |parts| > 0 { assert log.lo <= parts[0].lo <= parts[0].hi <= log.hi; }
  }

  lemma FitIsFree(log: Range, parts: seq<Range>, free: seq<Range>, k: nat, num: int)
    requires Layout(log, parts) && Exact(log, parts, |parts|, free) && k < |free|
      && 1 <= num <= free[k].hi - free[k].lo + 1
    ensures Fits(log, parts, free[k].lo, num)
  {
    var fit := Range(free[k].lo, free[k].lo + num - 1);
    forall c | fit.Has(c) ensures log.Has(c) && !Covered(parts, |parts|, c) {
      assert free[k].Has(c) && InRanges(free, c);
    }
    AcceptsIffFree(log, parts, fit);
  }

  /** A disk whose logical range is empty (RDB cylinders up to the last) reports that empty range as free;
      apart from this case "no range" means exactly "no free cylinder". */
  lemma NoneIffFull(log: Range, parts: seq<Range>)
    requires Layout(log, parts)
    ensures (FreeAfter(log, parts, |parts|) == [] <==> forall c :: log.Has(c) ==> Covered(parts, |parts|, c))
      <==> log.lo <= log.hi
  {
    var free := FreeAfter(log, parts, |parts|);
    NoRoom(log, parts);
    if log.lo <= log.hi {
      FreeExact(log, parts, |parts|);
      HasFirst(free);
      if free == [] {
        forall c | log.Has(c) ensures Covered(parts, |parts|, c) { assert !InRanges(free, c); }
      }
    }
  }

  lemma FreeNone(log: Range, parts: seq<Range>)
    ensures FreeAfter(log, parts, 0) == [log]
  {
  }

  lemma FreeNext(log: Range, parts: seq<Range>, i: nat)
    requires i < |parts|
    ensures var free := FreeAfter(log, parts, i); FreeAfter(log, parts, i + 1) == CutAll(free, |free|, parts[i])
  {
    hide CutAll;
  }

  /** `get_free_cyl_ranges`, for the partitions of a disk. */
  method GetFreeCylRanges(log: Range, parts: seq<Range>) returns (r: Option<seq<Range>>)
    ensures var free := FreeAfter(log, parts, |parts|); r == if free == [] then None else Some(free)
  {
    hide FreeAfter;
    FreeNone(log, parts);
    var free := [log];
    for i := 0 to |parts|
      invariant free == FreeAfter(log, parts, i)
    {
      var pr := parts[i];
      var newFree := [];
      for j := 0 to |free|
        invariant newFree == CutAll(free, j, pr)
      {
        var r := free[j];
        if pr.lo == r.lo && pr.hi == r.hi {
          // partition completely fills range
        } else if pr.lo == r.lo {
          newFree := newFree + [Range(pr.hi + 1, r.hi)];
        } else if pr.hi == r.hi {
          newFree := newFree + [Range(r.lo, pr.lo - 1)];
        } else if pr.lo > r.lo && pr.hi < r.hi {
          newFree := newFree + [Range(r.lo, pr.lo - 1)];
          newFree := newFree + [Range(pr.hi + 1, r.hi)];
        } else {
          newFree := newFree + [r];
        }
      }
      FreeNext(log, parts, i);
      free := newFree;
    }
    r := if |free| == 0 then None else Some(free);
  }

  method FindFreeCylRangeStart(log: Range, parts: seq<Range>, numCyls: int) returns (r: Option<int>)
    ensures r == FirstFit(FreeAfter(log, parts, |parts|), 0, numCyls)
  {
    var ranges := GetFreeCylRanges(log, parts);
    if ranges == None { return None; }
    var free := ranges.value;
    for i := 0 to |free|
      invariant FirstFit(free, 0, numCyls) == FirstFit(free, i, numCyls)
    {
      var size := free[i].hi - free[i].lo + 1;
      if numCyls <= size { return Some(free[i].lo); }
    }
    r := None;
  }

  method CheckCylRange(log: Range, parts: seq<Range>, r: Range) returns (ok: bool)
    ensures ok == Accepts(log, parts, r)
  {
    if r.lo > r.hi { return false; }
    if !(r.lo >= log.lo && r.hi <= log.hi) { return false; }
    // check partitions
    for i := 0 to |parts|
      invariant AllApart(parts, i, r)
    {
      if !(r.hi < parts[i].lo || r.lo > parts[i].hi) {
        if AllApart(parts, |parts|, r) { AllApartAt(parts, |parts|, r, i); }
        return false;
      }
    }
    ok := true;
  }
}
