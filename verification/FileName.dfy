/** `FileName` on Latin-1 byte strings: case folding, hashing, path splitting. */
module FileNames {
  import opened Bytes

  const SLASH: byte := 0x2F
  const COLON: byte := 0x3A
  const MAX_NAME := 30

  // ----- case folding and hash -----

  function UpperByte(c: byte, intl: bool): byte {
    if 'a' as int <= c <= 'z' as int then c - 32
    else if intl && 224 <= c <= 254 && c != 247 then c - 32
    else c
  }

  function Upper(s: seq<byte>, intl: bool): (r: seq<byte>)
    ensures |r| == |s|
    ensures forall i :: 0 <= i < |s| ==> r[i] == UpperByte(s[i], intl)
  {
    if s == [] then [] else Upper(s[..|s| - 1], intl) + [UpperByte(s[|s| - 1], intl)]
  }

  /** `get_upper_ami_str`: ASCII first, then the Latin-1 letters of an international volume. */
  method GetUpperAmiStr(s: seq<byte>, intl: bool) returns (r: seq<byte>)
    ensures r == Upper(s, intl) && |r| == |s|
    ensures forall i :: 0 <= i < |s| && 97 <= s[i] <= 122 ==> r[i] == s[i] - 32
    ensures intl ==> forall i :: 0 <= i < |s| && 224 <= s[i] <= 254 && s[i] != 247 ==> r[i] == s[i] - 32
    ensures forall i :: 0 <= i < |s| && !(97 <= s[i] <= 122) && !(intl && 224 <= s[i] <= 254 && s[i] != 247) ==>
      r[i] == s[i]
  {
    var result := [];
    for i := 0 to |s|
      invariant |result| == i
      invariant forall k :: 0 <= k < i ==> result[k] == UpperByte(s[k], false)
    {
      result := result + [if 'a' as int <= s[i] <= 'z' as int then s[i] - 32 else s[i]];
    }
    if !intl { return result; }
    r := [];
    for i := 0 to |result|
      invariant |r| == i
      invariant forall k :: 0 <= k < i ==> r[k] == UpperByte(s[k], true)
    {
      var o := result[i];
      if 224 <= o <= 254 && o != 247 {
        r := r + [o - 32];
      } else {
        r := r + [o];
      }
    }
  }

  /** Folding twice changes nothing, so equality after folding is an equivalence that a stored,
      already folded name represents. */
  lemma UpperIdempotent(s: seq<byte>, intl: bool)
    ensures Upper(Upper(s, intl), intl) == Upper(s, intl)
  {
  }

  /** The rolling sum of `hash` over the first `n` characters; `& 0x7FF` keeps 11 bits. */
  function HashSum(up: seq<byte>, n: nat): (h: nat)
    requires n <= |up|
  {
    if n == 0 then |up| else (HashSum(up, n - 1) * 13 + up[n - 1]) % 0x800
  }

  function Hash(name: seq<byte>, intl: bool, size: nat): (h: nat)
    requires size > 0
    ensures h < size
  {
    var up := Upper(name, intl);
    HashSum(up, |up|) % size
  }

  method HashName(name: seq<byte>, intl: bool, size: nat) returns (h: nat)
    requires size > 0
    ensures h == Hash(name, intl, size)
  {
    var up := GetUpperAmiStr(name, intl);
    h := |up|;
    for i := 0 to |up|
      invariant h == HashSum(up, i)
    {
      h := h * 13;
      h := h + up[i];
      h := h % 0x800;
    }
    h := h % size;
  }

  /** 13 to the power `n`. */
  function Pow13(n: nat): nat { if n == 0 then 1 else 13 * Pow13(n - 1) }

  /** The first `k` characters of `up`, each times the power of 13 that it has after `n` rounds. */
  function Weights(up: seq<byte>, n: nat, k: nat): nat
    requires k <= n && k <= |up|
  {
    if k == 0 then 0 else Weights(up, n, k - 1) + up[k - 1] * Pow13(n - k)
  }

  lemma {:induction false} WeightsNext(up: seq<byte>, n: nat, k: nat)
    requires k <= n && k <= |up|
    ensures Weights(up, n + 1, k) == 13 * Weights(up, n, k)
  {
    if k > 0 {
      WeightsNext(up, n, k - 1);
      Factor(up[k - 1], Pow13(n - k));
    }
  }

  lemma Factor(u: nat, a: nat)
    ensures u * (13 * a) == 13 * (u * a)
  {
  }

  /** The rolling sum is a polynomial: the length and then the folded characters, in falling powers of 13, cut
      to 11 bits once instead of in every round. */
  lemma {:induction false} HashIsPolynomial(up: seq<byte>, n: nat)
    requires n <= |up|
    ensures HashSum(up, n) % 2048 == (|up| * Pow13(n) + Weights(up, n, n)) % 2048
    ensures n > 0 ==> HashSum(up, n) < 2048
  {
    if n > 0 {
      HashIsPolynomial(up, n - 1);
      PolynomialNext(up, n);
      SameRest(HashSum(up, n - 1), |up| * Pow13(n - 1) + Weights(up, n - 1, n - 1), up[n - 1]);
    }
  }

  lemma PolynomialNext(up: seq<byte>, n: nat)
    requires 0 < n <= |up|
    ensures |up| * Pow13(n) + Weights(up, n, n) == 13 * (|up| * Pow13(n - 1) + Weights(up, n - 1, n - 1)) + up[n - 1]
  {
    WeightsNext(up, n - 1, n - 1);
    Horner(|up|, Pow13(n - 1), Weights(up, n - 1, n - 1), up[n - 1]);
  }

  lemma Horner(len: nat, a: nat, w: nat, u: nat)
    ensures len * (13 * a) + (13 * w + u) == 13 * (len * a + w) + u
  {
  }

  lemma SameRest(h: nat, p: nat, u: nat)
    requires h % 2048 == p % 2048
    ensures (h * 13 + u) % 2048 == (13 * p + u) % 2048
  {
    var a, b, r := h / 2048, p / 2048, h % 2048;
    Parts(h, a, r);
    Parts(p, b, r);
    Shift(13 * a, 13 * r + u);
    Shift(13 * b, 13 * r + u);
  }

  lemma Parts(h: nat, a: nat, r: nat)
    requires a == h / 2048 && r == h % 2048
    ensures h == 2048 * a + r
  {
  }

  lemma Shift(k: nat, m: nat)
    ensures (2048 * k + m) % 2048 == m % 2048
  {
  }

  /** The bucket of "abc" in a hash table of 72 entries, folded by either rule. */
  lemma HashOfAbc(intl: bool)
    ensures Hash([0x61, 0x62, 0x63], intl, 72) == 69
  {
    var name: seq<byte> := [0x61, 0x62, 0x63];
    var up := Upper(name, intl);
    assert up == [0x41, 0x42, 0x43];
    assert HashSum(up, 1) == 104 && HashSum(up, 2) == 1418 && HashSum(up, 3) == 69;
  }

  /** Names that are equal after folding always meet in the same bucket. */
  lemma SameNameSameHash(a: seq<byte>, b: seq<byte>, intl: bool, size: nat)
    requires size > 0 && Upper(a, intl) == Upper(b, intl)
    ensures Hash(a, intl, size) == Hash(b, intl, size)
  {
  }

  // ----- paths -----

  function Slash(s: seq<byte>): (i: nat)
    ensures i <= |s| && (i < |s| ==> s[i] == SLASH)
    ensures forall k :: 0 <= k < i ==> s[k] != SLASH
  {
    if s == [] || s[0] == SLASH then 0 else 1 + Slash(s[1..])
  }

  /** `split("/")`. */
  function Split(s: seq<byte>): (r: seq<seq<byte>>)
    ensures |r| > 0
    ensures forall i :: 0 <= i < |r| ==> SLASH !in r[i]
  {
    var i := Slash(s);
    if i == |s| then [s] else [s[..i]] + Split(s[i + 1..])
  }

  function Join(parts: seq<seq<byte>>): seq<byte>
    requires |parts| > 0
  {
    if |parts| == 1 then parts[0] else parts[0] + [SLASH] + Join(parts[1..])
  }

  lemma SlashUnique(s: seq<byte>, i: nat)
    requires i <= |s| && (forall k :: 0 <= k < i ==> s[k] != SLASH) && (i < |s| ==> s[i] == SLASH)
    ensures Slash(s) == i
  {
  }

  lemma SplitFirst(s: seq<byte>, i: nat)
    requires i <= |s| && (forall k :: 0 <= k < i ==> s[k] != SLASH) && (i < |s| ==> s[i] == SLASH)
    ensures Split(s) == if i == |s| then [s] else [s[..i]] + Split(s[i + 1..])
  {
    hide Slash;
    SlashUnique(s, i);
  }

  /** Splitting loses nothing. */
  lemma {:induction false} JoinSplit(s: seq<byte>)
    ensures Join(Split(s)) == s
  {
    hide Slash, Split;
    var i := Slash(s);
    SplitFirst(s, i);
    if i < |s| {
      JoinSplit(s[i + 1..]);
      assert Split(s)[1..] == Split(s[i + 1..]);
    }
  }

  /** A path is split at every slash (0x2F) and nowhere else. */
  lemma SplitExact(a: seq<byte>, b: seq<byte>)
    ensures Split(a + [0x2F] + b) == Split(a) + Split(b)
    ensures 0x2F !in a ==> Split(a) == [a]
  {
    var s := a + [SLASH] + b;
    assert s[..|a|] == a && s[|a| + 1..] == b;
    SplitAtSlash(s, |a|);
    if 0x2F !in a { SlashUnique(a, |a|); }
  }

  /** The directory part is what stands before the last slash, the base name what follows it. */
  lemma DirAndBaseExact(s: seq<byte>)
    ensures var (dir, base) := DirAndBase(s);
      && (dir.None? <==> 0x2F !in s) && (dir.None? ==> base == Some(s))
      && (dir.Some? ==> s == dir.value + [0x2F] + base.UnwrapOr([]) && 0x2F !in base.UnwrapOr([]) && base != Some([]))
  {
    var pos := LastSlash(s);
    if pos >= 0 { assert s == s[..pos] + [s[pos]] + s[pos + 1..]; }
  }

  /** Position of the last slash: `rfind("/")`. */
  function LastSlash(s: seq<byte>): (i: int)
    ensures -1 <= i < |s| && (i >= 0 ==> s[i] == SLASH)
    ensures forall k :: i < k < |s| ==> s[k] != SLASH
  {
    if s == [] then -1 else if s[|s| - 1] == SLASH then |s| - 1 else LastSlash(s[..|s| - 1])
  }

  /** `get_dir_and_base_name`: directory part (None without a slash) and base name (None if empty). */
  function DirAndBase(s: seq<byte>): (Option<seq<byte>>, Option<seq<byte>>) {
    var pos := LastSlash(s);
    if pos < 0 then (None, Some(s))
    else (Some(s[..pos]), if pos + 1 == |s| then None else Some(s[pos + 1..]))
  }

  lemma {:induction false} SplitAtSlash(s: seq<byte>, pos: nat)
    requires pos < |s| && s[pos] == SLASH
    ensures Split(s) == Split(s[..pos]) + Split(s[pos + 1..])
  {
    hide Split, Slash;
    var i, d := Slash(s), s[..pos];
    SplitFirst(s, i);
    SplitFirst(d, i);
    if i < pos {
      var t, q := s[i + 1..], pos - i - 1;
      Behind(s, i, pos);
      SplitAtSlash(t, q);
      Regroup([s[..i]], Split(t[..q]), Split(t[q + 1..]));
    }
  }

  lemma Behind(s: seq<byte>, i: nat, pos: nat)
    requires i < pos < |s|
    ensures var (t, q, d) := (s[i + 1..], pos - i - 1, s[..pos]);
      t[q] == s[pos] && t[..q] == d[i + 1..] && t[q + 1..] == s[pos + 1..] && d[..i] == s[..i]
  {
  }

  lemma Regroup<T>(a: seq<T>, b: seq<T>, c: seq<T>)
    ensures a + (b + c) == a + b + c
  {
  }

  /** The base name is the last path component, the directory part has the components before. */
  lemma DirAndBaseOfPath(s: seq<byte>)
    ensures var (d, b) := DirAndBase(s);
      && (d.None? ==> b == Some(s) && Split(s) == [s])
      && (d.Some? ==> Split(s) == Split(d.value) + [b.UnwrapOr([])])
  {
    var pos := LastSlash(s);
    if pos < 0 {
      assert s[pos + 1..] == s;
      SlashUnique(s, |s|);
    } else {
      SplitAtSlash(s, pos);
      var base := s[pos + 1..];
      SlashUnique(base, |base|);
    }
  }

  /** `is_valid`: every component has at most 30 characters.  (The test against ':' and '/' in the
      code compares numbers with strings and never fires.) */
  predicate ValidPath(s: seq<byte>) {
    forall i :: 0 <= i < |Split(s)| ==> |Split(s)[i]| <= MAX_NAME
  }

  predicate RootAlias(s: seq<byte>) { s in {[], [SLASH], [COLON]} }

  /** Names equal after folding on every component: the path a volume looks up. */
  function Fold(parts: seq<seq<byte>>, intl: bool): (r: seq<seq<byte>>)
    ensures |r| == |parts|
    ensures forall i :: 0 <= i < |parts| ==> r[i] == Upper(parts[i], intl)
  {
    seq(|parts|, i requires 0 <= i < |parts| => Upper(parts[i], intl))
  }
}
