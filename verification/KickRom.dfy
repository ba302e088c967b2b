/** `KickRomAccess`: checksum, size field, footer and header of a Kickstart ROM, and its detector. */
module KickRom {
  import opened Bytes

  const FOOTER_SIZE := 0x18
  const ROMHDR_256K: long := 0x1111_4EF9
  const ROMHDR_512K: long := 0x1114_4EF9
  const MAX_U32 := 0xFFFF_FFFF

  // ----- the end-around-carry sum -----

  /** One addition: an overflow comes back in at the bottom. */
  function AddCarry(acc: nat, val: nat): nat {
    if acc + val > MAX_U32 then acc + val - 0x1_0000_0000 + 1 else acc + val
  }

  /** The running sum over the first `n` longs, without the one at `skip`. */
  function Acc(s: seq<byte>, n: nat, skip: int): (acc: nat)
    requires 4 * n <= |s|
    ensures acc <= MAX_U32
  {
    if n == 0 then 0 else
      var acc := Acc(s, n - 1, skip);
      if 4 * (n - 1) == skip then acc else AddCarry(acc, LongAt(s, 4 * (n - 1)))
  }

  /** The plain sum of the same longs. */
  function Sum(s: seq<byte>, n: nat, skip: int): nat
    requires 4 * n <= |s|
  {
    if n == 0 then 0 else Sum(s, n - 1, skip) + if 4 * (n - 1) == skip then 0 else LongAt(s, 4 * (n - 1))
  }

  /** The running sum is the plain sum with a number of times 2^32 - 1 taken away, and zero only for zero. */
  lemma {:induction false} AccIsSum(s: seq<byte>, n: nat, skip: int) returns (k: nat)
    requires 4 * n <= |s|
    ensures Sum(s, n, skip) == Acc(s, n, skip) + k * MAX_U32
    ensures Acc(s, n, skip) == 0 ==> Sum(s, n, skip) == 0
  {
    if n == 0 {
      k := 0;
    } else {
      k := AccIsSum(s, n - 1, skip);
      if 4 * (n - 1) != skip && Acc(s, n - 1, skip) + LongAt(s, 4 * (n - 1)) > MAX_U32 {
        k := k + 1;
      }
    }
  }

  lemma {:induction false} SkippedSum(s: seq<byte>, n: nat, off: nat)
    requires 4 * n <= |s| && off % 4 == 0 && off + 4 <= |s|
    ensures Sum(s, n, -1) == Sum(s, n, off) + if off < 4 * n then LongAt(s, off) else 0
  {
    if n > 0 {
      SkippedSum(s, n - 1, off);
    }
  }

  /** The sum without a long does not depend on that long. */
  lemma {:induction false} SkipIgnores(s: seq<byte>, t: seq<byte>, n: nat, off: nat)
    requires |s| == |t| && 4 * n <= |s| && off % 4 == 0
    requires forall i :: 0 <= i < |s| && !(off <= i < off + 4) ==> t[i] == s[i]
    ensures Acc(t, n, off) == Acc(s, n, off) && Sum(t, n, off) == Sum(s, n, off)
  {
    hide LongAt;
    if n > 0 {
      SkipIgnores(s, t, n - 1, off);
      var p := 4 * (n - 1);
      if p != off {
        assert t[p..p + 4] == s[p..p + 4];
        LongAtSame(t, p, s, p);
      }
    }
  }

  /** `calc_check_sum`. */
  function CheckSum(s: seq<byte>, skip: int): long {
    MAX_U32 - Acc(s, |s| / 4, skip)
  }

  function SumOff(s: seq<byte>): int { |s| - 0x18 }

  predicate Sized(s: seq<byte>) { |s| % 4 == 0 && |s| >= FOOTER_SIZE }

  /** A ROM verifies exactly when the stored long is the recalculated one; where that is 0, all ones do as
      well (the two zeros of the sum). */
  lemma VerifiesIff(s: seq<byte>)
    requires Sized(s)
    ensures CheckSum(s, -1) == 0 <==>
      var stored, wanted := LongAt(s, SumOff(s)), CheckSum(s, SumOff(s));
      stored == wanted || (wanted == 0 && stored == MAX_U32)
  {
    var n, off := |s| / 4, SumOff(s);
    var a := AccIsSum(s, n, -1);
    var b := AccIsSum(s, n, off);
    SkippedSum(s, n, off);
    var stored, acc, all := LongAt(s, off), Acc(s, n, off), Acc(s, n, -1);
    assert all + a * MAX_U32 == acc + b * MAX_U32 + stored;
    Multiples(all, a, acc + stored, b);
    NoSumNoAcc(s, n, -1);
  }

  lemma {:induction false} NoSumNoAcc(s: seq<byte>, n: nat, skip: int)
    requires 4 * n <= |s|
    ensures Sum(s, n, skip) == 0 ==> Acc(s, n, skip) == 0
  {
    if n > 0 { NoSumNoAcc(s, n - 1, skip); }
  }

  lemma Multiples(x: nat, a: nat, y: nat, b: nat)
    requires x + a * MAX_U32 == y + b * MAX_U32 && x <= MAX_U32 && y <= 2 * MAX_U32
    ensures (x == MAX_U32 && y > 0) ==> y == MAX_U32 || y == 2 * MAX_U32
    ensures (y == MAX_U32 || y == 2 * MAX_U32) ==> x == MAX_U32 || x == 0
  {
  }

  /** `write_check_sum`. */
  function WithCheckSum(s: seq<byte>): (r: seq<byte>)
    requires |s| >= FOOTER_SIZE
  {
    PutLong(s, SumOff(s), CheckSum(s, SumOff(s)))
  }

  /** Writing the checksum makes the ROM verify. */
  lemma WrittenVerifies(s: seq<byte>)
    requires Sized(s)
    ensures CheckSum(WithCheckSum(s), -1) == 0
  {
    var r, off := WithCheckSum(s), SumOff(s);
    SkipIgnores(s, r, |s| / 4, off);
    VerifiesIff(r);
  }

  /** The checksum makes every image of a size verify exactly when the size is whole longs: otherwise its field
      lies between the longs of the sum. */
  lemma WrittenVerifiesIff(n: nat)
    requires n >= FOOTER_SIZE
    ensures (forall s: seq<byte> :: |s| == n ==> CheckSum(WithCheckSum(s), -1) == 0) <==> n % 4 == 0
  {
    hide CheckSum, WithCheckSum;
    if n % 4 == 0 {
      forall s: seq<byte> | |s| == n ensures CheckSum(WithCheckSum(s), -1) == 0 { WrittenVerifies(s); }
    } else {
      OffGridFails(n);
      assert |OneByte(n)| == n;
    }
  }

  /** All zero but the last byte of the last long. */
  function OneByte(n: nat): (s: seq<byte>)
    requires n >= 4
    ensures |s| == n && forall k :: 0 <= k < n ==> s[k] == if k == 4 * (n / 4) - 1 then 1 else 0
  {
    ZeroBytes(n)[4 * (n / 4) - 1 := 1]
  }

  /** An image that does not verify, for every other size. */
  lemma OffGridFails(n: nat)
    requires n >= FOOTER_SIZE && n % 4 != 0
    ensures CheckSum(WithCheckSum(OneByte(n)), -1) != 0
  {
    var m, k := n / 4, n % 4;
    var s, off := OneByte(n), 4 * (m - 6) + k;
    OneByteSum(s, m, off);
    hide CheckSum, LongAt;
    var r := PutLong(s, off, 0xFFFF_FFFE);
    FieldBytes(r, off);
    SplitSum(r, m, k);
  }

  lemma FieldBytes(r: seq<byte>, off: nat)
    requires off + 4 <= |r| && LongAt(r, off) == 0xFFFF_FFFE
    ensures r[off] == r[off + 1] == r[off + 2] == 0xFF && r[off + 3] == 0xFE
  {
  }

  /** Zero longs add nothing. */
  lemma {:induction false} AccFlat(s: seq<byte>, i: nat, j: nat, skip: int)
    requires i <= j && 4 * j <= |s| && forall k :: 4 * i <= k < 4 * j ==> s[k] == 0
    ensures Acc(s, j, skip) == Acc(s, i, skip)
    decreases j
  {
    if i < j {
      AccFlat(s, i, j - 1, skip);
      assert LongAt(s, 4 * (j - 1)) == 0;
    }
  }

  lemma OneByteSum(s: seq<byte>, m: nat, off: nat)
    requires m > 0 && 4 * m <= |s| < 4 * m + 4 && off % 4 != 0
    requires forall k :: 0 <= k < |s| ==> s[k] == if k == 4 * m - 1 then 1 else 0
    ensures CheckSum(s, off) == 0xFFFF_FFFE
  {
    AccFlat(s, 0, m - 1, off);
    assert LongAt(s, 4 * (m - 1)) == 1;
  }

  /** Two longs share the checksum field, `k` bytes of it in the second. */
  lemma SplitSum(r: seq<byte>, m: nat, k: nat)
    requires 1 <= k <= 3 && m >= 6 && |r| == 4 * m + k
    requires var off := 4 * (m - 6) + k; r[off] == r[off + 1] == r[off + 2] == 0xFF && r[off + 3] == 0xFE
    requires forall j :: 0 <= j < |r| && !(4 * (m - 6) + k <= j < 4 * (m - 6) + k + 4) ==>
      r[j] == if j == 4 * m - 1 then 1 else 0
    ensures CheckSum(r, -1) != 0
  {
    hide LongAt, Acc;
    var p := 4 * (m - 6);
    AccFlat(r, 0, m - 6, -1);
    AccNext(r, m - 6);
    AccNext(r, m - 5);
    SharedLongs(r, p, k);
    AccFlat(r, m - 4, m - 1, -1);
    AccNext(r, m - 1);
    LastLong(r, 4 * (m - 1));
    assert Acc(r, m, -1) == LongAt(r, p) + LongAt(r, p + 4) + 1;
  }

  lemma AccNext(s: seq<byte>, n: nat)
    requires 4 * n + 4 <= |s|
    ensures Acc(s, 0, -1) == 0 && Acc(s, n + 1, -1) == AddCarry(Acc(s, n, -1), LongAt(s, 4 * n))
  {
    hide LongAt;
  }

  lemma LastLong(s: seq<byte>, p: nat)
    requires p + 4 <= |s| && s[p] == s[p + 1] == s[p + 2] == 0 && s[p + 3] == 1
    ensures LongAt(s, p) == 1
  {
  }

  lemma SharedLongs(r: seq<byte>, p: nat, k: nat)
    requires 1 <= k <= 3 && p + 8 <= |r|
    requires r[p + k] == r[p + k + 1] == r[p + k + 2] == 0xFF && r[p + k + 3] == 0xFE
    requires forall j :: p <= j < p + 8 && !(p + k <= j < p + k + 4) ==> r[j] == 0
    ensures LongAt(r, p) + LongAt(r, p + 4) < MAX_U32 - 1
  {
    if k == 1 {
      assert LongAt(r, p) == 0x00FF_FFFF && LongAt(r, p + 4) == 0xFE00_0000;
    } else if k == 2 {
      assert LongAt(r, p) == 0xFFFF && LongAt(r, p + 4) == 0xFFFE_0000;
    } else {
      assert LongAt(r, p) == 0xFF && LongAt(r, p + 4) == 0xFFFF_FE00;
    }
  }

  // ----- footer -----

  /** Words `num`, `num + 1`, ... from `off` on. */
  function PutWords(s: seq<byte>, off: nat, num: word, n: nat): (r: seq<byte>)
    requires off + 2 * n <= |s| && num + n < 0x1_0000
    ensures |r| == |s|
    ensures forall k :: 0 <= k < |s| && !(off <= k < off + 2 * n) ==> r[k] == s[k]
  {
    if n == 0 then s else PutWord(PutWords(s, off, num, n - 1), off + 2 * (n - 1), num + n - 1)
  }

  lemma {:induction false} PutWordsAt(s: seq<byte>, off: nat, num: word, n: nat, k: nat)
    requires off + 2 * n <= |s| && num + n < 0x1_0000 && k < n
    ensures WordAt(PutWords(s, off, num, n), off + 2 * k) == num + k
  {
    if k < n - 1 {
      PutWordsAt(s, off, num, n - 1, k);
      var t, r := PutWords(s, off, num, n - 1), PutWords(s, off, num, n);
      assert r[off + 2 * k] == t[off + 2 * k] && r[off + 2 * k + 1] == t[off + 2 * k + 1];
    }
  }

  /** `check_footer`: 0x19 .. 0x1f in the last fourteen bytes. */
  predicate FooterOk(s: seq<byte>)
    requires |s| >= 14
  {
    WordsAre(s, |s| - 14, 0x19, 7)
  }

  predicate WordsAre(s: seq<byte>, off: nat, num: word, n: nat)
    requires off + 2 * n <= |s|
  {
    n > 0 ==> WordsAre(s, off, num, n - 1) && WordAt(s, off + 2 * (n - 1)) == num + n - 1
  }

  lemma {:induction false} WordsAreIf(s: seq<byte>, off: nat, num: word, n: nat)
    requires off + 2 * n <= |s| && forall k :: 0 <= k < n ==> WordAt(s, off + 2 * k) == num + k
    ensures WordsAre(s, off, num, n)
  {
    if n > 0 {
      WordsAreIf(s, off, num, n - 1);
      assert WordAt(s, off + 2 * (n - 1)) == num + (n - 1);
    }
  }

  /** `write_ext_footer`: footer words, size field, checksum. */
  function WithFooter(s: seq<byte>): (r: seq<byte>)
    requires FOOTER_SIZE <= |s| < 0x1_0000_0000
  {
    WithCheckSum(PutLong(PutWords(s, |s| - 0x10, 0x18, 8), |s| - 0x14, |s|))
  }

  /** The footer fills the last 24 bytes and touches no other. */
  lemma FooterFrame(s: seq<byte>)
    requires FOOTER_SIZE <= |s| < 0x1_0000_0000
    ensures |WithFooter(s)| == |s|
    ensures forall k :: 0 <= k < |s| - FOOTER_SIZE ==> WithFooter(s)[k] == s[k]
  {
  }

  /** ... and carries everything the detector looks for there, the sum in an image of whole longs. */
  lemma FooterComplete(s: seq<byte>)
    requires FOOTER_SIZE <= |s| < 0x1_0000_0000
    ensures var r := WithFooter(s);
      |r| == |s| && FooterOk(r) && LongAt(r, |r| - 0x14) == |r| && (Sized(s) ==> CheckSum(r, -1) == 0)
  {
    hide CheckSum, WordsAre, PutWords, WithCheckSum, LongAt;
    if Sized(s) { WrittenVerifies(PutLong(PutWords(s, |s| - 0x10, 0x18, 8), |s| - 0x14, |s|)); }
    FooterWords(s);
    FooterSize(s);
    FooterFrame(s);
  }

  lemma FooterSize(s: seq<byte>)
    requires FOOTER_SIZE <= |s| < 0x1_0000_0000
    ensures LongAt(WithFooter(s), |s| - 0x14) == |s|
  {
    hide CheckSum, PutWords, LongAt;
    var b := PutLong(PutWords(s, |s| - 0x10, 0x18, 8), |s| - 0x14, |s|);
    var q := |s| - 0x14;
    assert WithFooter(s)[q..q + 4] == b[q..q + 4];
    LongAtSame(WithFooter(s), q, b, q);
  }

  lemma FooterWords(s: seq<byte>)
    requires FOOTER_SIZE <= |s| < 0x1_0000_0000
    ensures FooterOk(WithFooter(s))
  {
    hide CheckSum, WordsAre, PutWords, PutLong;
    var r := WithFooter(s);
    FooterFrame(s);
    forall k | 0 <= k < 7 ensures WordAt(r, |r| - 14 + 2 * k) == 0x19 + k { FooterWordAt(s, k + 1); }
    WordsAreIf(r, |r| - 14, 0x19, 7);
  }

  lemma FooterWordAt(s: seq<byte>, k: nat)
    requires FOOTER_SIZE <= |s| < 0x1_0000_0000 && k < 8
    ensures WordAt(WithFooter(s), |s| - 16 + 2 * k) == 0x18 + k
  {
    hide CheckSum, PutWords, PutLong;
    var a := PutWords(s, |s| - 0x10, 0x18, 8);
    PutWordsAt(s, |s| - 0x10, 0x18, 8, k);
    var p := |s| - 16 + 2 * k;
    assert WithFooter(s)[p] == a[p] && WithFooter(s)[p + 1] == a[p + 1];
  }

  // ----- the detector -----

  datatype Verdict = Ok | SizeFailed | HeaderFailed | FooterFailed | SizeFieldMismatch | CheckSumMismatch

  predicate SizeOk(s: seq<byte>) { |s| == 256 * 1024 || |s| == 512 * 1024 }

  /** `check_header` for the two sizes that pass `check_size`. */
  predicate HeaderOk(s: seq<byte>)
    requires |s| >= 4
  {
    var val := LongAt(s, 0);
    if |s| / 1024 == 512 then val == ROMHDR_512K
    else if |s| / 1024 == 256 then val == ROMHDR_256K || val == ROMHDR_512K
    else if |s| / 1024 == 1536 || |s| / 1024 == 3584 then val == ROMHDR_512K else false
  }

  function Detect(s: seq<byte>): Verdict {
    if !SizeOk(s) then SizeFailed
    else if !HeaderOk(s) then HeaderFailed
    else if !FooterOk(s) then FooterFailed
    else if LongAt(s, |s| - 0x14) != |s| then SizeFieldMismatch
    else if CheckSum(s, -1) != 0 then CheckSumMismatch
    else Ok
  }

  // ----- the image in numbers -----

  /** The sum of all longs, one by one. */
  lemma SumExact(s: seq<byte>, n: nat)
    requires 4 * n + 4 <= |s|
    ensures Sum(s, 0, -1) == 0 && Sum(s, n + 1, -1) == Sum(s, n, -1) + LongAt(s, 4 * n)
  {
    hide LongAt;
  }

  /** A ROM verifies exactly when its longs add up to a multiple of 2^32 - 1 other than 0. */
  lemma VerifiesExact(s: seq<byte>)
    requires |s| % 4 == 0
    ensures CheckSum(s, -1) == 0 <==> Sum(s, |s| / 4, -1) > 0 && Sum(s, |s| / 4, -1) % 0xFFFF_FFFF == 0
  {
    hide Sum, Acc;
    var k := AccIsSum(s, |s| / 4, -1);
    NoSumNoAcc(s, |s| / 4, -1);
    Rest(Acc(s, |s| / 4, -1), k);
  }

  lemma Rest(a: nat, k: nat)
    requires a <= MAX_U32
    ensures (a + k * MAX_U32) % 0xFFFF_FFFF == 0 <==> a == 0 || a == MAX_U32
  {
    ModPlus(a, k);
  }

  lemma {:induction false} ModPlus(a: nat, k: nat)
    ensures (a + k * MAX_U32) % MAX_U32 == a % MAX_U32
  {
    if k > 0 {
      ModPlus(a, k - 1);
      assert a + k * MAX_U32 == (a + (k - 1) * MAX_U32) + MAX_U32;
    }
  }

  /** The first long of a ROM: 0x11144EF9 in every size that is known, and in 256 KiB also 0x11114EF9. */
  lemma HeaderExact(s: seq<byte>)
    requires |s| >= 4
    ensures HeaderOk(s) <==>
      || (|s| / 1024 in {256, 512, 1536, 3584} && LongAt(s, 0) == 0x1114_4EF9)
      || (|s| / 1024 == 256 && LongAt(s, 0) == 0x1111_4EF9)
  {
    hide LongAt;
  }

  /** What the detector takes for a Kickstart, in its own order: 256 or 512 KiB, the first long 0x11144EF9 (or
      0x11114EF9 in 256 KiB), the words 0x19 to 0x1F at the end, the size 20 bytes before the end, and longs that
      add up to a multiple of 2^32 - 1. */
  lemma DetectExact(s: seq<byte>)
    ensures var size := |s| == 0x4_0000 || |s| == 0x8_0000;
      var header := size && (LongAt(s, 0) == 0x1114_4EF9 || (|s| == 0x4_0000 && LongAt(s, 0) == 0x1111_4EF9));
      var footer := header && forall k :: 0 <= k < 7 ==> WordAt(s, |s| - 14 + 2 * k) == 0x19 + k;
      var field := footer && LongAt(s, |s| - 20) == |s|;
      var sum := field && Sum(s, |s| / 4, -1) > 0 && Sum(s, |s| / 4, -1) % 0xFFFF_FFFF == 0;
      Detect(s) == if !size then SizeFailed else if !header then HeaderFailed else if !footer then FooterFailed
                   else if !field then SizeFieldMismatch else if !sum then CheckSumMismatch else Ok
  {
    hide Sum, LongAt, WordAt, WordsAre, CheckSum;
    if |s| % 4 == 0 { VerifiesExact(s); }
    if |s| >= 14 { WordsExact(s, |s| - 14, 0x19, 7); }
  }

  lemma {:induction false} WordsExact(s: seq<byte>, off: nat, num: word, n: nat)
    requires off + 2 * n <= |s|
    ensures WordsAre(s, off, num, n) <==> forall k :: 0 <= k < n ==> WordAt(s, off + 2 * k) == num + k
  {
    hide WordAt;
    if n > 0 {
      WordsExact(s, off, num, n - 1);
      assert off + 2 * (n - 1) == off + 2 * n - 2;
    }
  }

  /** The footer word by word: eight words from 0x18 at the end, the size in front of them, and in front of that
      the checksum. */
  lemma FooterExact(s: seq<byte>)
    requires FOOTER_SIZE <= |s| < 0x1_0000_0000
    ensures var r := WithFooter(s);
      && |r| == |s| && (forall k :: 0 <= k < |s| - 24 ==> r[k] == s[k])
      && (forall k :: 0 <= k < 8 ==> WordAt(r, |s| - 16 + 2 * k) == 0x18 + k) && LongAt(r, |s| - 20) == |s|
      && (|s| % 4 == 0 ==> Sum(r, |s| / 4, -1) > 0 && Sum(r, |s| / 4, -1) % 0xFFFF_FFFF == 0)
  {
    hide Sum, LongAt, WordAt, WordsAre, CheckSum, WithFooter;
    FooterFrame(s);
    FooterComplete(s);
    FooterSize(s);
    if |s| % 4 == 0 { VerifiesExact(WithFooter(s)); }
    forall k | 0 <= k < 8 ensures WordAt(WithFooter(s), |s| - 16 + 2 * k) == 0x18 + k { FooterWordAt(s, k); }
  }

  class KickRomAccess {
    const rom: array<byte>

    constructor (rom: array<byte>)
      ensures this.rom == rom
    {
      this.rom := rom;
    }

    /** `calc_check_sum`. */
    method CalcCheckSum(skipOff: Option<nat>) returns (chk: long)
      ensures chk == CheckSum(rom[..], if skipOff.Some? then skipOff.value else -1)
    {
      hide LongAt;
      ghost var skip: int := if skipOff.Some? then skipOff.value else -1;
      var chkSum: int := 0;
      var off := 0;
      for i := 0 to rom.Length / 4
        invariant off == 4 * i && chkSum == Acc(rom[..], i, skip)
      {
        var val := LongAt(rom[..], off);
        if skipOff != Some(off) { chkSum := chkSum + val; }
        off := off + 4;
        if chkSum > MAX_U32 {
          chkSum := chkSum % 0x1_0000_0000;
          chkSum := chkSum + 1;
        }
      }
      chk := MAX_U32 - chkSum;
    }

    method WriteCheckSum()
      requires rom.Length >= FOOTER_SIZE
      modifies rom
      ensures rom[..] == WithCheckSum(old(rom[..]))
    {
      var cs := CalcCheckSum(Some(rom.Length - 0x18));
      PackLong(rom, rom.Length - 0x18, cs);
    }

    method VerifyCheckSum() returns (ok: bool)
      ensures ok <==> CheckSum(rom[..], -1) == 0
    {
      var chk := CalcCheckSum(None);
      ok := chk == 0;
    }

    method WriteFooter()
      requires rom.Length >= FOOTER_SIZE
      modifies rom
      ensures rom[..] == PutWords(old(rom[..]), rom.Length - 0x10, 0x18, 8)
    {
      hide PutWord;
      var off, num := rom.Length - 0x10, 0x18;
      for i := 0 to 8
        invariant off == rom.Length - 0x10 + 2 * i && num == 0x18 + i
        invariant rom[..] == PutWords(old(rom[..]), rom.Length - 0x10, 0x18, i)
      {
        PackWord(rom, off, num);
        num := num + 1;
        off := off + 2;
      }
    }

    method WriteExtFooter()
      requires FOOTER_SIZE <= rom.Length < 0x1_0000_0000
      modifies rom
      ensures rom[..] == WithFooter(old(rom[..]))
    {
      hide CheckSum, PutWords, PutLong, WithCheckSum;
      WriteFooter();
      PackLong(rom, rom.Length - 0x14, rom.Length);
      WriteCheckSum();
    }

    method CheckHeader() returns (ok: bool)
      requires rom.Length >= 4
      ensures ok == HeaderOk(rom[..])
    {
      // expect 0x1114 0x4ef9
      var val, kib := LongAt(rom[..], 0), rom.Length / 1024;
      if kib == 512 { return val == ROMHDR_512K; }
      if kib == 256 { return val == ROMHDR_256K || val == ROMHDR_512K; }
      if kib == 1536 || kib == 3584 { return val == ROMHDR_512K; }
      ok := false;
    }

    method CheckFooter() returns (ok: bool)
      requires rom.Length >= 14
      ensures ok == FooterOk(rom[..])
    {
      var off, num := rom.Length - 14, 0x19;
      for i := 0 to 7
        invariant off == rom.Length - 14 + 2 * i && num == 0x19 + i
        invariant WordsAre(rom[..], rom.Length - 14, 0x19, i)
      {
        var val := WordAt(rom[..], off);
        if val != num {
          WordsNot(rom[..], rom.Length - 14, 0x19, i, 7);
          return false;
        }
        num := num + 1;
        off := off + 2;
      }
      ok := true;
    }

    /** `detect_kick_rom`. */
    method DetectKickRom() returns (r: Verdict)
      ensures r == Detect(rom[..])
    {
      var size := rom.Length;
      if size % 1024 != 0 || (size / 1024 != 256 && size / 1024 != 512) { return SizeFailed; }
      var ok := CheckHeader();
      if !ok { return HeaderFailed; }
      ok := CheckFooter();
      if !ok { return FooterFailed; }
      if LongAt(rom[..], size - 0x14) != size { return SizeFieldMismatch; }
      ok := VerifyCheckSum();
      if !ok { return CheckSumMismatch; }
      r := Ok;
    }
  }

  lemma {:induction false} WordsNot(s: seq<byte>, off: nat, num: word, i: nat, n: nat)
    requires i < n && off + 2 * n <= |s| && WordAt(s, off + 2 * i) != num + i
    ensures !WordsAre(s, off, num, n)
  {
    if i < n - 1 { WordsNot(s, off, num, i, n - 1); }
  }
}
