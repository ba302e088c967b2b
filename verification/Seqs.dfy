/** Sequences of block numbers without repetition, and the sets they list. */
module Seqs {
  ghost predicate Distinct(s: seq<nat>) {
    forall i, j :: 0 <= i < j < |s| ==> s[i] != s[j]
  }

  predicate NoZero(s: seq<nat>) {
    forall i :: 0 <= i < |s| ==> s[i] != 0
  }

  lemma Glue<T>(s: seq<T>, a: nat, b: nat, c: nat)
    requires a <= b <= c <= |s|
    ensures s[a..b] + s[b..c] == s[a..c]
  {
  }

  ghost function Elems(s: seq<nat>): set<nat> {
    set x | x in s
  }

  lemma ElemsNext(s: seq<nat>, i: nat)
    requires i < |s|
    ensures Elems(s[..i + 1]) == Elems(s[..i]) + {s[i]}
  {
    assert s[..i + 1] == s[..i] + [s[i]];
  }

  lemma DistinctCard(s: seq<nat>)
    requires Distinct(s)
    ensures |Elems(s)| == |s|
  {
    DistinctCardTo(s, |s|);
    assert s[..|s|] == s;
  }

  lemma {:induction false} DistinctCardTo(s: seq<nat>, n: nat)
    requires Distinct(s) && n <= |s|
    ensures |Elems(s[..n])| == n
  {
    hide Distinct, Elems;
    if n == 0 {
      NoElems(s);
    } else {
      DistinctCardTo(s, n - 1);
      ElemsNext(s, n - 1);
      NotBefore(s, n - 1);
    }
  }

  lemma NoElems(s: seq<nat>)
    ensures Elems(s[..0]) == {}
  {
  }

  lemma NotBefore(s: seq<nat>, i: nat)
    requires Distinct(s) && i < |s|
    ensures s[i] !in Elems(s[..i])
  {
  }

  lemma DistinctConcat(s: seq<nat>, t: seq<nat>)
    requires Distinct(s) && Distinct(t) && Elems(s) !! Elems(t)
    ensures Distinct(s + t)
    ensures Elems(s + t) == Elems(s) + Elems(t)
  {
    forall i, j | 0 <= i < j < |s + t| ensures (s + t)[i] != (s + t)[j] {
      if i < |s| <= j {
        assert s[i] in Elems(s) && t[j - |s|] in Elems(t);
      }
    }
  }

  lemma DistinctAppend(s: seq<nat>, x: nat)
    requires Distinct(s) && x !in s
    ensures Distinct(s + [x])
  {
  }

  lemma SubsetCard(a: set<nat>, b: set<nat>)
    requires a <= b
    ensures |a| <= |b|
    ensures |b - a| == |b| - |a|
    ensures |a| == |b| ==> a == b
  {
    assert b == a + (b - a);
    if |a| == |b| {
      assert |b - a| == 0;
    }
  }

  /** The naturals of a half-open interval. */
  ghost function Range(lo: nat, hi: nat): set<nat>
    decreases hi
  {
    if lo < hi then Range(lo, hi - 1) + {hi - 1} else {}
  }

  lemma {:induction false} RangeElems(lo: nat, hi: nat)
    ensures forall b :: b in Range(lo, hi) <==> lo <= b < hi
    ensures lo <= hi ==> |Range(lo, hi)| == hi - lo
    decreases hi
  {
    if lo < hi {
      RangeElems(lo, hi - 1);
    }
  }

  lemma InRangeSet(lo: nat, hi: nat, b: nat)
    ensures b in Range(lo, hi) <==> lo <= b < hi
  {
    RangeElems(lo, hi);
  }

  lemma RangeMinus(lo: nat, a: nat, b: nat, hi: nat)
    requires lo <= a <= b <= hi
    ensures |Range(lo, hi) - Range(a, b)| == hi - lo - (b - a)
  {
    RangeElems(lo, hi);
    RangeElems(a, b);
    SubsetCard(Range(a, b), Range(lo, hi));
  }

  /** Taking the elements of `s` out of a set one by one. */
  lemma RemoveNext(all: set<nat>, s: seq<nat>, i: nat)
    requires i < |s|
    ensures all - Elems(s[..i + 1]) == all - Elems(s[..i]) - {s[i]}
  {
    ElemsNext(s, i);
  }

  lemma AddNext(before: set<nat>, inside: set<nat>, s: seq<nat>, i: nat)
    requires i < |s|
    ensures before + Elems(s[..i + 1]) * inside
      == before + Elems(s[..i]) * inside + if s[i] in inside then {s[i]} else {}
  {
    ElemsNext(s, i);
  }

  /** `list.remove`. */
  function Without(s: seq<nat>, x: nat): seq<nat> {
    if s == [] then [] else if s[0] == x then s[1..] else [s[0]] + Without(s[1..], x)
  }

  lemma {:induction false} WithoutAt(s: seq<nat>, pos: nat)
    requires pos < |s| && Distinct(s)
    ensures Without(s, s[pos]) == s[..pos] + s[pos + 1..]
  {
    if pos > 0 {
      assert s[0] != s[pos];
      var t := s[1..];
      assert t[pos - 1] == s[pos];
      WithoutAt(t, pos - 1);
      assert s[..pos] == [s[0]] + t[..pos - 1] && s[pos + 1..] == t[pos..];
    }
  }

  lemma WithoutElems(s: seq<nat>, x: nat)
    requires Distinct(s) && x in s
    ensures Distinct(Without(s, x))
    ensures forall y :: y in Without(s, x) <==> y in s && y != x
  {
    hide Without;
    var pos :| 0 <= pos < |s| && s[pos] == x;
    WithoutAt(s, pos);
    var r := s[..pos] + s[pos + 1..];
    forall y | y in s && y != x ensures y in r {
      var k :| 0 <= k < |s| && s[k] == y;
      if k < pos { assert r[k] == y; } else { assert r[k - 1] == y; }
    }
  }

  lemma {:induction false} WithoutMultiset(s: seq<nat>, x: nat)
    requires x in s
    ensures multiset(Without(s, x)) == multiset(s) - multiset{x}
  {
    assert s == [s[0]] + s[1..];
    if s[0] != x {
      WithoutMultiset(s[1..], x);
    }
  }

  /** As many elements as positions: no position repeats another. */
  lemma {:induction false} CardDistinct(s: seq<nat>)
    requires |Elems(s)| == |s|
    ensures Distinct(s)
  {
    if s != [] {
      var t, x := s[..|s| - 1], s[|s| - 1];
      assert s == t + [x];
      assert Elems(s) == Elems(t) + {x};
      ElemsCard(t);
      CardDistinct(t);
    }
  }

  lemma {:induction false} ElemsCard(s: seq<nat>)
    ensures |Elems(s)| <= |s|
  {
    if s != [] {
      ElemsCard(s[..|s| - 1]);
      assert Elems(s) == Elems(s[..|s| - 1]) + {s[|s| - 1]};
    } else {
      assert Elems(s) == {};
    }
  }

  lemma PermDistinct(s: seq<nat>, t: seq<nat>)
    requires multiset(s) == multiset(t) && Distinct(s)
    ensures Distinct(t) && Elems(t) == Elems(s)
  {
    DistinctCard(s);
    assert |s| == |multiset(s)| == |t|;
    forall x ensures x in s <==> x in t { assert x in s <==> x in multiset(s); }
    assert Elems(s) == Elems(t);
    CardDistinct(t);
  }

  /** The parts of a list without repetition share nothing and repeat nothing. */
  lemma DistinctParts(s: seq<nat>, t: seq<nat>)
    requires Distinct(s + t)
    ensures Distinct(s) && Distinct(t) && forall b :: b in s ==> b !in t
  {
    forall i, j | 0 <= i < |s| && 0 <= j < |t| ensures s[i] != t[j] {
      assert (s + t)[i] == s[i] && (s + t)[|s| + j] == t[j];
    }
    forall i, j | 0 <= i < j < |t| ensures t[i] != t[j] {
      assert (s + t)[|s| + i] == t[i] && (s + t)[|s| + j] == t[j];
    }
    forall i, j | 0 <= i < j < |s| ensures s[i] != s[j] {
      assert (s + t)[i] == s[i] && (s + t)[j] == s[j];
    }
  }
}
