/** Big-endian longs and words in byte strings, as `struct.pack_into(">I"/">H")` and
    `struct.unpack_from` lay them out, and the single-bit operations on a 32-bit long. */
module Bytes {
  type byte = b: int | 0 <= b < 0x100
  type word = w: int | 0 <= w < 0x1_0000
  type long = v: int | 0 <= v < 0x1_0000_0000

  datatype Option<+T> = None | Some(value: T) {
    function UnwrapOr(default: T): T { if Some? then value else default }
  }

  // ----- packing -----

  function WordAt(s: seq<byte>, off: nat): (v: word)
    requires off + 2 <= |s|
  {
    s[off] as int * 0x100 + s[off + 1] as int
  }

  function WordBytes(v: word): (s: seq<byte>)
    ensures |s| == 2 && WordAt(s, 0) == v
  {
    [v / 0x100, v % 0x100]
  }

  function LongAt(s: seq<byte>, off: nat): (v: long)
    requires off + 4 <= |s|
  {
    WordAt(s, off) as int * 0x1_0000 + WordAt(s, off + 2) as int
  }

  function LongBytes(v: long): (s: seq<byte>)
    ensures |s| == 4 && LongAt(s, 0) == v
  {
    var hi, lo := WordBytes(v / 0x1_0000), WordBytes(v % 0x1_0000);
    [hi[0], hi[1], lo[0], lo[1]]
  }

  function PutLong(s: seq<byte>, off: nat, v: long): (r: seq<byte>)
    requires off + 4 <= |s|
    ensures |r| == |s| && LongAt(r, off) == v
    ensures forall k :: 0 <= k < |s| && !(off <= k < off + 4) ==> r[k] == s[k]
  {
    var b := LongBytes(v);
    s[off := b[0]][off + 1 := b[1]][off + 2 := b[2]][off + 3 := b[3]]
  }

  function PutWord(s: seq<byte>, off: nat, v: word): (r: seq<byte>)
    requires off + 2 <= |s|
    ensures |r| == |s| && WordAt(r, off) == v
    ensures forall k :: 0 <= k < |s| && !(off <= k < off + 2) ==> r[k] == s[k]
  {
    var b := WordBytes(v);
    s[off := b[0]][off + 1 := b[1]]
  }

  /** Words and longs are big-endian. */
  lemma BigEndian(s: seq<byte>, off: nat)
    ensures off + 2 <= |s| ==> WordAt(s, off) == s[off] as int * 0x100 + s[off + 1]
    ensures off + 4 <= |s| ==>
      LongAt(s, off) == s[off] as int * 0x100_0000 + s[off + 1] as int * 0x1_0000 + s[off + 2] as int * 0x100
        + s[off + 3]
  {
  }

  /** A long determines its four bytes. */
  lemma LongAtInjective(s: seq<byte>, i: nat, t: seq<byte>, j: nat)
    requires i + 4 <= |s| && j + 4 <= |t| && LongAt(s, i) == LongAt(t, j)
    ensures s[i..i + 4] == t[j..j + 4]
  {
    assert s[i] == t[j] && s[i + 1] == t[j + 1] && s[i + 2] == t[j + 2] && s[i + 3] == t[j + 3];
  }

  /** Bytes that agree on four positions give the same long. */
  lemma LongAtSame(s: seq<byte>, i: nat, t: seq<byte>, j: nat)
    requires i + 4 <= |s| && j + 4 <= |t| && s[i..i + 4] == t[j..j + 4]
    ensures LongAt(s, i) == LongAt(t, j)
  {
    var a, b := s[i..i + 4], t[j..j + 4];
    assert a[0] == b[0] && a[1] == b[1] && a[2] == b[2] && a[3] == b[3];
  }

  method PackLong(a: array<byte>, off: nat, v: long)
    requires off + 4 <= a.Length
    modifies a
    ensures a[..] == PutLong(old(a[..]), off, v)
  {
    var b := LongBytes(v);
    a[off], a[off + 1], a[off + 2], a[off + 3] := b[0], b[1], b[2], b[3];
  }

  method PackWord(a: array<byte>, off: nat, v: word)
    requires off + 2 <= a.Length
    modifies a
    ensures a[..] == PutWord(old(a[..]), off, v)
  {
    var b := WordBytes(v);
    a[off], a[off + 1] := b[0], b[1];
  }

  ghost predicate AreLongs(s: seq<nat>) { forall i :: 0 <= i < |s| ==> s[i] < 0x1_0000_0000 }

  function ZeroBytes(n: nat): (r: seq<byte>)
    ensures |r| == n && forall k :: 0 <= k < n ==> r[k] == 0
  {
    seq(n, _ => 0)
  }

  // ----- bits of a long -----

  /** `(v & (1 << bit)) == (1 << bit)`, on the binary digits of `v`. */
  predicate HasBit(v: nat, bit: nat) {
    if bit == 0 then v % 2 == 1 else HasBit(v / 2, bit - 1)
  }

  /** `v | (1 << bit)`. */
  function OrBit(v: nat, bit: nat): nat {
    if bit == 0 then v - v % 2 + 1 else 2 * OrBit(v / 2, bit - 1) + v % 2
  }

  /** `v & ~(1 << bit)`. */
  function AndNotBit(v: nat, bit: nat): nat {
    if bit == 0 then v - v % 2 else 2 * AndNotBit(v / 2, bit - 1) + v % 2
  }

  function Pow2(n: nat): (r: nat)
    ensures r > 0
  {
    if n == 0 then 1 else 2 * Pow2(n - 1)
  }

  lemma {:induction false} OrBitBits(v: nat, bit: nat, k: nat)
    ensures HasBit(OrBit(v, bit), k) == (k == bit || HasBit(v, k))
  {
    if bit > 0 && k > 0 {
      OrBitBits(v / 2, bit - 1, k - 1);
    }
  }

  lemma {:induction false} AndNotBitBits(v: nat, bit: nat, k: nat)
    ensures HasBit(AndNotBit(v, bit), k) == (k != bit && HasBit(v, k))
  {
    if bit > 0 && k > 0 {
      AndNotBitBits(v / 2, bit - 1, k - 1);
    }
  }

  /** Setting a clear bit adds its power of two, clearing a set one takes it away. */
  lemma {:induction false} BitArithmetic(v: nat, bit: nat)
    ensures OrBit(v, bit) == if HasBit(v, bit) then v else v + Pow2(bit)
    ensures AndNotBit(v, bit) == if HasBit(v, bit) then v - Pow2(bit) else v
  {
    if bit > 0 {
      BitArithmetic(v / 2, bit - 1);
    }
  }

  /** A long stays a long under both operations. */
  lemma {:induction false} BitOpsInRange(v: nat, bit: nat, width: nat)
    requires v < Pow2(width) && bit < width
    ensures OrBit(v, bit) < Pow2(width) && AndNotBit(v, bit) < Pow2(width)
  {
    if bit > 0 {
      BitOpsInRange(v / 2, bit - 1, width - 1);
    }
  }

  /** A bit is a binary digit. */
  lemma {:induction false} HasBitIsDigit(v: nat, bit: nat)
    ensures HasBit(v, bit) <==> v / Pow2(bit) % 2 == 1
  {
    if bit > 0 {
      HasBitIsDigit(v / 2, bit - 1);
      HalfQuotient(v, Pow2(bit - 1));
    }
  }

  lemma HalfQuotient(v: nat, d: nat)
    requires d > 0
    ensures v / 2 / d == v / (2 * d)
  {
    var q := v / 2 / d;
    assert v / 2 == q * d + v / 2 % d;
    QuotientUnique(v, 2 * d, q);
  }

  lemma Pow2Of32()
    ensures Pow2(32) == 0x1_0000_0000
  {
    assert Pow2(8) == 0x100;
    assert Pow2(16) == 0x1_0000;
    assert Pow2(24) == 0x100_0000;
  }

  /** A long that is not zero has a set bit: the `val != 0` shortcut of the search loop. */
  lemma {:induction false} SomeBit(v: nat, width: nat) returns (k: nat)
    requires 0 < v < Pow2(width)
    ensures k < width && HasBit(v, k)
  {
    if v % 2 == 1 {
      k := 0;
    } else {
      k := SomeBit(v / 2, width - 1);
      k := k + 1;
    }
  }

  lemma {:induction false} ZeroHasNoBit(k: nat)
    ensures !HasBit(0, k)
  {
    if k > 0 {
      ZeroHasNoBit(k - 1);
    }
  }

  lemma {:induction false} AllOnes(v: nat, width: nat, k: nat)
    requires v == Pow2(width) - 1 && k < width
    ensures HasBit(v, k)
  {
    if k > 0 {
      assert v == 2 * (Pow2(width - 1) - 1) + 1;
      AllOnes(v / 2, width - 1, k - 1);
    }
  }

  // ----- rounding up -----

  /** `(n + d - 1) // d` for n >= 0 (see `CeilDivIsDivision`), and 0 below. */
  function CeilDiv(n: int, d: nat): nat
    requires d > 0
    decreases n
  {
    if n <= 0 then 0 else 1 + CeilDiv(n - d, d)
  }

  lemma {:induction false} CeilDivBounds(n: nat, d: nat)
    requires d > 0
    ensures n <= CeilDiv(n, d) * d < n + d
  {
    if n > 0 {
      if n <= d {
        assert CeilDiv(n - d, d) == 0;
      } else {
        CeilDivBounds(n - d, d);
      }
      assert CeilDiv(n, d) * d == CeilDiv(n - d, d) * d + d;
    }
  }

  lemma CeilDivIsDivision(n: nat, d: nat)
    requires d > 0
    ensures CeilDiv(n, d) == (n + d - 1) / d
  {
    CeilDivBounds(n, d);
    QuotientUnique(n + d - 1, d, CeilDiv(n, d));
  }

  /** The least number of pieces of size `d` that hold `n`. */
  lemma CeilDivExact(n: nat, d: nat, k: nat)
    requires d > 0
    ensures k == CeilDiv(n, d) <==> n <= k * d < n + d
  {
    hide CeilDiv;
    CeilDivBounds(n, d);
    OneMultiple(n, d, CeilDiv(n, d), k);
  }

  lemma OneMultiple(n: nat, d: nat, a: nat, b: nat)
    requires d > 0 && n <= a * d < n + d
    ensures a == b <==> n <= b * d < n + d
  {
    if b < a {
      MulLe(b + 1, a, d);
      assert (b + 1) * d == b * d + d;
    } else if a < b {
      MulLe(a + 1, b, d);
      assert (a + 1) * d == a * d + d;
    }
  }

  lemma QuotientUnique(n: nat, d: nat, q: nat)
    requires d > 0 && q * d <= n < q * d + d
    ensures n / d == q
  {
    var p := n / d;
    assert n == p * d + n % d;
    MulLe(p + 1, q, d);
    MulLe(q + 1, p, d);
  }

  lemma {:induction false} CeilDivAtMost(n: nat, d: nat)
    requires d > 0
    ensures CeilDiv(n, d) <= n
  {
    if n > d { CeilDivAtMost(n - d, d); }
  }

  lemma MulLe(a: int, b: int, c: nat)
    ensures a <= b ==> a * c <= b * c
  {
  }

  /** `n * size`, by repeated addition. */
  function Times(n: nat, size: nat): nat {
    if n == 0 then 0 else Times(n - 1, size) + size
  }

  lemma {:induction false} TimesIsProduct(n: nat, size: nat)
    ensures Times(n, size) == n * size
  {
    if n > 0 {
      TimesIsProduct(n - 1, size);
      assert n * size == (n - 1) * size + size;
    }
  }

  lemma {:induction false} TimesLe(m: nat, n: nat, size: nat)
    requires m <= n
    ensures Times(m, size) <= Times(n, size)
    decreases n
  {
    if m < n {
      TimesLe(m, n - 1, size);
    }
  }
}
