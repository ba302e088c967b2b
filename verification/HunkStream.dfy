/** Reading and writing longs, words and names in a hunk stream. */
module HunkStream {
  import opened Bytes

  /** A value read and what is left of the stream; None where the code raises. */
  type Parsed<T> = Option<(T, seq<byte>)>

  /** The positioned file object. */
  class Stream {
    const data: seq<byte>
    var pos: nat

    ghost predicate Valid()
      reads this
    {
      pos <= |data|
    }

    /** What has not been read yet. */
    ghost function Rest(): seq<byte>
      requires Valid()
      reads this
    {
      data[pos..]
    }

    constructor (data: seq<byte>)
      ensures Valid() && Rest() == data && this.data == data
    {
      this.data, pos := data, 0;
    }

    /** `read`: up to `n` bytes. */
    method Read(n: nat) returns (d: seq<byte>)
      requires Valid()
      modifies this
      ensures Valid() && d == Taken(old(Rest()), n) && Rest() == Dropped(old(Rest()), n)
    {
      var end := if pos + n <= |data| then pos + n else |data|;
      d := data[pos..end];
      pos := end;
    }

    method ReadLong() returns (v: Option<long>)
      requires Valid()
      modifies this
      ensures Valid()
      ensures v.None? <==> LongOf(old(Rest())).None?
      ensures v.Some? ==> LongOf(old(Rest())) == Some((v.value, Rest()))
    {
      ghost var s := Rest();
      var d := Read(4);
      if |d| != 4 { return None; }
      assert LongAt(d, 0) == LongAt(s, 0);
      v := Some(LongAt(d, 0));
    }

    method ReadWord() returns (v: Option<word>)
      requires Valid()
      modifies this
      ensures Valid()
      ensures v.None? <==> WordOf(old(Rest())).None?
      ensures v.Some? ==> WordOf(old(Rest())) == Some((v.value, Rest()))
    {
      ghost var s := Rest();
      var d := Read(2);
      if |d| != 2 { return None; }
      assert WordAt(d, 0) == WordAt(s, 0);
      v := Some(WordAt(d, 0));
    }

    /** A loop of `n` longs. */
    method ReadLongs(n: nat) returns (vs: Option<seq<nat>>)
      requires Valid()
      modifies this
      ensures Valid()
      ensures vs.None? <==> LongsOf(old(Rest()), n).None?
      ensures vs.Some? ==> LongsOf(old(Rest()), n) == Some((vs.value, Rest()))
    {
      hide LongOf;
      ghost var s := Rest();
      var r: seq<nat> := [];
      BeforeNone(LongsOf(s, n));
      for i := 0 to n
        invariant Valid() && LongsOf(s, n) == Before(r, LongsOf(Rest(), n - i))
      {
        var v := ReadLong();
        if v.None? { return None; }
        BeforeBefore(r, [v.value], LongsOf(Rest(), n - i - 1));
        r := r + [v.value];
      }
      assert r + [] == r;
      vs := Some(r);
    }

    method ReadWords(n: nat) returns (vs: Option<seq<nat>>)
      requires Valid()
      modifies this
      ensures Valid()
      ensures vs.None? <==> WordsOf(old(Rest()), n).None?
      ensures vs.Some? ==> WordsOf(old(Rest()), n) == Some((vs.value, Rest()))
    {
      hide WordOf;
      ghost var s := Rest();
      var r: seq<nat> := [];
      BeforeNone(WordsOf(s, n));
      for i := 0 to n
        invariant Valid() && WordsOf(s, n) == Before(r, WordsOf(Rest(), n - i))
      {
        var v := ReadWord();
        if v.None? { return None; }
        BeforeBefore(r, [v.value], WordsOf(Rest(), n - i - 1));
        r := r + [v.value];
      }
      assert r + [] == r;
      vs := Some(r);
    }

    /** `_read_name`: length in longs, then the bytes up to the first NUL; size 0 also for an empty name. */
    method ReadName() returns (r: Option<(nat, seq<byte>)>)
      requires Valid()
      modifies this
      ensures Valid()
      ensures r.None? <==> NameOf(old(Rest())).None?
      ensures r.Some? ==> NameOf(old(Rest())) == Some((r.value, Rest()))
    {
      var numLongs := ReadLong();
      if numLongs.None? { return None; }
      if numLongs.value == 0 { return Some((0, [])); }
      var size := numLongs.value % 0x100_0000 * 4;
      var d := Read(size);
      if |d| < size { return None; }
      var endpos := FindNul(d);
      if endpos == |d| {
        r := Some((size, d));
      } else if endpos == 0 {
        r := Some((0, []));
      } else {
        r := Some((size, d[..endpos]));
      }
    }
  }

  function Taken(s: seq<byte>, n: nat): seq<byte> { if n <= |s| then s[..n] else s }

  function Dropped(s: seq<byte>, n: nat): seq<byte> { if n <= |s| then s[n..] else [] }

  /** Elements read earlier in front of a list read now. */
  function Before<T>(r: seq<T>, p: Parsed<seq<T>>): Parsed<seq<T>> {
    if p.None? then None else Some((r + p.value.0, p.value.1))
  }

  lemma BeforeNone<T>(p: Parsed<seq<T>>)
    ensures Before([], p) == p
  {
    if p.Some? { assert [] + p.value.0 == p.value.0; }
  }

  lemma BeforeBefore<T>(a: seq<T>, b: seq<T>, p: Parsed<seq<T>>)
    ensures Before(a, Before(b, p)) == Before(a + b, p)
  {
    if p.Some? { assert a + (b + p.value.0) == a + b + p.value.0; }
  }

  // ----- longs and words -----

  function LongOf(s: seq<byte>): Parsed<long> {
    if |s| < 4 then None else Some((LongAt(s, 0), s[4..]))
  }

  function WordOf(s: seq<byte>): Parsed<word> {
    if |s| < 2 then None else Some((WordAt(s, 0), s[2..]))
  }

  function LongsOf(s: seq<byte>, n: nat): Parsed<seq<nat>>
    decreases n
  {
    if n == 0 then Some(([], s)) else
      var v := LongOf(s);
      if v.None? then None else Before([v.value.0], LongsOf(v.value.1, n - 1))
  }

  function WordsOf(s: seq<byte>, n: nat): Parsed<seq<nat>>
    decreases n
  {
    if n == 0 then Some(([], s)) else
      var v := WordOf(s);
      if v.None? then None else Before([v.value.0], WordsOf(v.value.1, n - 1))
  }

  ghost predicate AreWords(vs: seq<nat>) { forall i :: 0 <= i < |vs| ==> vs[i] < 0x1_0000 }

  function PutLongs(vs: seq<nat>): seq<byte>
    requires AreLongs(vs)
  {
    if vs == [] then [] else LongBytes(vs[0]) + PutLongs(vs[1..])
  }

  function PutWords(vs: seq<nat>): seq<byte>
    requires AreWords(vs)
  {
    if vs == [] then [] else WordBytes(vs[0]) + PutWords(vs[1..])
  }

  lemma LongBack(v: long, rest: seq<byte>)
    ensures LongOf(LongBytes(v) + rest) == Some((v, rest))
  {
    hide LongBytes;
    var b := LongBytes(v);
    var s := b + rest;
    assert s[0..4] == b[0..4];
    LongAtSame(s, 0, b, 0);
    assert s[4..] == rest;
  }

  lemma WordBack(v: word, rest: seq<byte>)
    ensures WordOf(WordBytes(v) + rest) == Some((v, rest))
  {
    var s := WordBytes(v) + rest;
    assert s[2..] == rest;
  }

  lemma {:induction false} LongsBack(vs: seq<nat>, rest: seq<byte>)
    requires AreLongs(vs)
    ensures LongsOf(PutLongs(vs) + rest, |vs|) == Some((vs, rest))
    decreases |vs|
  {
    hide LongOf, LongBytes;
    if vs == [] {
      assert [] + rest == rest;
    } else {
      assert PutLongs(vs) + rest == LongBytes(vs[0]) + (PutLongs(vs[1..]) + rest);
      LongBack(vs[0], PutLongs(vs[1..]) + rest);
      LongsBack(vs[1..], rest);
      assert [vs[0]] + vs[1..] == vs;
    }
  }

  lemma {:induction false} WordsBack(vs: seq<nat>, rest: seq<byte>)
    requires AreWords(vs)
    ensures WordsOf(PutWords(vs) + rest, |vs|) == Some((vs, rest))
    decreases |vs|
  {
    hide WordOf, WordBytes;
    if vs == [] {
      assert [] + rest == rest;
    } else {
      assert PutWords(vs) + rest == WordBytes(vs[0]) + (PutWords(vs[1..]) + rest);
      WordBack(vs[0], PutWords(vs[1..]) + rest);
      WordsBack(vs[1..], rest);
      assert [vs[0]] + vs[1..] == vs;
    }
  }

  /** Reading longs or words never makes the stream longer. */
  lemma {:induction false} LongsShrink(s: seq<byte>, n: nat)
    ensures LongsOf(s, n).Some? ==> |LongsOf(s, n).value.1| <= |s|
    decreases n
  {
    if n > 0 && |s| >= 4 { LongsShrink(s[4..], n - 1); }
  }

  lemma {:induction false} WordsShrink(s: seq<byte>, n: nat)
    ensures WordsOf(s, n).Some? ==> |WordsOf(s, n).value.1| <= |s|
    decreases n
  {
    if n > 0 && |s| >= 2 { WordsShrink(s[2..], n - 1); }
  }

  // ----- names -----

  function FindNul(d: seq<byte>): (i: nat)
    ensures i <= |d| && (i < |d| ==> d[i] == 0) && forall k :: 0 <= k < i ==> d[k] != 0
  {
    if d == [] || d[0] == 0 then 0 else 1 + FindNul(d[1..])
  }

  function NameOf(s: seq<byte>): Parsed<(nat, seq<byte>)> {
    var l := LongOf(s);
    if l.None? then None
    else if l.value.0 == 0 then Some(((0, []), l.value.1))
    else
      var size := l.value.0 % 0x100_0000 * 4;
      if |l.value.1| < size then None else
        Some((NameIn(size, l.value.1[..size]), l.value.1[size..]))
  }

  function NameLongs(n: nat): nat { (n + 3) / 4 }

  /** `_write_name` without a tag. */
  function PutName(s: seq<byte>): seq<byte>
    requires |s| < 0x400_0000 - 3
  {
    LongBytes(NameLongs(|s|)) + (s + ZeroBytes(4 * NameLongs(|s|) - |s|))
  }

  predicate GoodName(s: seq<byte>) { 0 < |s| < 0x400_0000 - 3 && forall i :: 0 <= i < |s| ==> s[i] != 0 }

  lemma NulAt(d: seq<byte>, i: nat)
    requires i <= |d| && (i < |d| ==> d[i] == 0) && forall k :: 0 <= k < i ==> d[k] != 0
    ensures FindNul(d) == i
  {
  }

  function NameIn(size: nat, d: seq<byte>): (nat, seq<byte>) {
    var e := FindNul(d);
    if e == |d| then (size, d) else if e == 0 then (0, []) else (size, d[..e])
  }

  lemma NameField(n: long, d: seq<byte>, rest: seq<byte>)
    requires 0 < n < 0x100_0000 && |d| == 4 * n
    ensures NameOf(LongBytes(n) + d + rest) == Some((NameIn(4 * n, d), rest))
  {
    hide LongOf, LongBytes;
    assert LongBytes(n) + d + rest == LongBytes(n) + (d + rest);
    LongBack(n, d + rest);
    assert (d + rest)[..4 * n] == d && (d + rest)[4 * n..] == rest;
  }

  lemma NameBytes(s: seq<byte>, rest: seq<byte>)
    requires 0 < |s| < 0x400_0000 - 3
    ensures var n := NameLongs(|s|); var d := s + ZeroBytes(4 * n - |s|);
      && 0 < n < 0x100_0000 && |d| == 4 * n && PutName(s) + rest == LongBytes(n) + d + rest
      && NameOf(PutName(s) + rest) == Some((NameIn(4 * n, d), rest))
  {
    hide LongBytes, NameOf;
    var n := NameLongs(|s|);
    var d := s + ZeroBytes(4 * n - |s|);
    assert PutName(s) == LongBytes(n) + d;
    NameField(n, d, rest);
  }

  /** A name that is not empty and has no NUL comes back; with size zero only if it is empty or starts with NUL. */
  lemma NameBack(s: seq<byte>, rest: seq<byte>)
    requires GoodName(s)
    ensures NameOf(PutName(s) + rest) == Some(((4 * NameLongs(|s|), s), rest)) && NameLongs(|s|) > 0
  {
    hide NameOf, PutName;
    NameBytes(s, rest);
    var d := s + ZeroBytes(4 * NameLongs(|s|) - |s|);
    NulAt(d, |s|);
    assert d[..|s|] == s;
    assert |d| == |s| ==> d == s;
  }

  /** An empty name, or one that starts with NUL, reads as the end of a list of names. */
  lemma NameEnds(s: seq<byte>, rest: seq<byte>)
    requires |s| < 0x400_0000 - 3 && (s == [] || s[0] == 0)
    ensures NameOf(PutName(s) + rest) == Some(((0, []), rest))
  {
    hide LongOf, LongBytes;
    if s == [] {
      assert PutName(s) + rest == LongBytes(0) + rest;
      LongBack(0, rest);
    } else {
      hide NameOf, PutName;
      NameBytes(s, rest);
      NulAt(s + ZeroBytes(4 * NameLongs(|s|) - |s|), 0);
    }
  }

  /** A name with a NUL inside comes back shorter. */
  lemma NameCut(s: seq<byte>, rest: seq<byte>)
    requires 0 < |s| < 0x400_0000 - 3 && s[0] != 0 && FindNul(s) < |s|
    ensures NameOf(PutName(s) + rest) == Some(((4 * NameLongs(|s|), s[..FindNul(s)]), rest))
  {
    hide NameOf, PutName, FindNul;
    NameBytes(s, rest);
    var d, e := s + ZeroBytes(4 * NameLongs(|s|) - |s|), FindNul(s);
    NulAt(d, e);
    assert d[..e] == s[..e];
  }
}
