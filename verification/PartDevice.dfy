/** `PartBlockDevice`: the blocks of a partition as runs of sectors of the raw disk. */
module PartDevice {
  import opened Bytes

  /** The fields of a partition's DOS environment that the device uses. */
  datatype DosEnv = DosEnv(lowCyl: nat, highCyl: nat, surfaces: nat, blkPerTrk: nat, secPerBlk: nat, blockSize: nat) {
    predicate Valid() { lowCyl <= highCyl && 1 <= secPerBlk }

    function CylBlks(): nat { surfaces * blkPerTrk }

    /** First sector of the partition. */
    function BlkOff(): int { surfaces * blkPerTrk * lowCyl }

    /** `_set_geometry`: cylinders * heads * (sectors // sectors per block). */
    function NumBlocks(): int
      requires secPerBlk >= 1
    {
      (highCyl - lowCyl + 1) * surfaces * (blkPerTrk / secPerBlk)
    }

    function BlockBytes(): nat { blockSize * 4 * secPerBlk }

    /** First sector of block `b`; the block has `secPerBlk` of them. */
    function Sector(b: int): int { BlkOff() + b * secPerBlk }

    /** Is sector `s` in the cylinders of the partition? */
    predicate Owns(s: int) { CylBlks() * lowCyl <= s < CylBlks() * (highCyl + 1) }

    predicate SectorOf(b: int, s: int) { Sector(b) <= s < Sector(b) + secPerBlk }
  }

  // ----- where the blocks of a partition lie -----

  lemma MulMono(a: int, b: int, c: int)
    requires a <= b && 0 <= c
    ensures a * c <= b * c
  {
  }

  lemma TracksFit(e: DosEnv)
    requires e.Valid()
    ensures 0 <= e.NumBlocks()
    ensures e.NumBlocks() * e.secPerBlk <= (e.highCyl - e.lowCyl + 1) * e.CylBlks()
  {
    var cyls, q := e.highCyl - e.lowCyl + 1, e.blkPerTrk / e.secPerBlk;
    QuotientFits(e.blkPerTrk, e.secPerBlk);
    MulMono(0, cyls * e.surfaces, q);
    TracksMul(cyls, e.surfaces, q, e.secPerBlk, e.blkPerTrk);
  }

  lemma QuotientFits(n: nat, d: nat)
    requires d > 0
    ensures 0 <= n / d && (n / d) * d <= n
  {
  }

  lemma TracksMul(cyls: nat, heads: nat, q: nat, spb: nat, trk: nat)
    requires q * spb <= trk
    ensures 0 <= cyls * heads && cyls * heads * q * spb <= cyls * (heads * trk)
  {
    var a := cyls * heads;
    Assoc(a, q, spb);
    MulMono(q * spb, trk, a);
    Assoc(cyls, heads, trk);
  }

  lemma Assoc(a: int, b: int, c: int)
    ensures a * b * c == a * (b * c)
  {
  }

  lemma RunsOrdered(a: int, b: int, spb: nat)
    ensures a < b ==> a * spb + spb <= b * spb
  {
    if a < b {
      MulMono(a + 1, b, spb);
      assert (a + 1) * spb == a * spb + spb;
    }
  }

  /** A partition spans its cylinders. */
  lemma CylSpan(lo: int, hi: int, c: int)
    ensures c * (hi + 1) == c * lo + (hi - lo + 1) * c
  {
  }

  lemma SectorRange(e: DosEnv, b: int)
    requires e.Valid() && b < e.NumBlocks()
    ensures b >= 0 ==> e.BlkOff() <= e.Sector(b) && e.Sector(b) + e.secPerBlk <= e.CylBlks() * (e.highCyl + 1)
    ensures b < 0 ==> e.Sector(b) < e.BlkOff()
  {
    TracksFit(e);
    CylSpan(e.lowCyl, e.highCyl, e.CylBlks());
    var spb := e.secPerBlk;
    hide *;
    if b >= 0 {
      RunsOrdered(b, e.NumBlocks(), spb);
      MulMono(0, b, spb);
    } else {
      MulMono(b, -1, spb);
    }
  }

  /** An accepted block number (the only test is `blk_num >= num_blocks`) stays inside the partition's own
      cylinders exactly when it is not negative. */
  lemma InsideIffNonNegative(e: DosEnv, b: int)
    requires e.Valid() && b < e.NumBlocks()
    ensures (forall s :: e.SectorOf(b, s) ==> e.Owns(s)) <==> b >= 0
  {
    SectorRange(e, b);
    assert e.SectorOf(b, e.Sector(b)) && e.BlkOff() == e.CylBlks() * e.lowCyl;
    if b < 0 { assert !e.Owns(e.Sector(b)); }
  }

  /** Two blocks of a partition share no sector. */
  lemma BlocksApart(e: DosEnv, a: int, b: int, s: int)
    requires e.Valid() && e.SectorOf(a, s) && e.SectorOf(b, s)
    ensures a == b
  {
    RunsOrdered(a, b, e.secPerBlk);
    RunsOrdered(b, a, e.secPerBlk);
  }

  /** Partitions of one disk with disjoint cylinder ranges share no sector. */
  lemma PartitionsApart(e: DosEnv, f: DosEnv, s: int)
    requires e.CylBlks() == f.CylBlks() && (e.highCyl < f.lowCyl || f.highCyl < e.lowCyl)
    ensures !(e.Owns(s) && f.Owns(s))
  {
    if e.highCyl < f.lowCyl {
      MulMono(e.highCyl + 1, f.lowCyl, e.CylBlks());
    } else {
      MulMono(f.highCyl + 1, e.lowCyl, e.CylBlks());
    }
  }

  /** A partition above the RDB cylinders has none of the RDB blocks. */
  lemma RdbApart(e: DosEnv, rdbCyls: nat, s: int)
    requires rdbCyls <= e.lowCyl && e.Owns(s)
    ensures s >= e.CylBlks() * rdbCyls
  {
    MulMono(rdbCyls, e.lowCyl, e.CylBlks());
  }

  // ----- the devices -----

  type Sectors = map<int, seq<byte>>

  predicate SameSector(m: Sectors, m': Sectors, s: int) {
    (s in m <==> s in m') && (s in m ==> m'[s] == m[s])
  }

  /** Sectors `off` .. `off + n` of the disk, one after the other; an unwritten sector reads as nothing. */
  function ReadRun(m: Sectors, off: int, n: nat): seq<byte> {
    if n == 0 then [] else ReadRun(m, off, n - 1) + if off + n - 1 in m then m[off + n - 1] else []
  }

  /** The disk after the first `n` sectors of `data`, `size` bytes each, are written from `off` on. */
  function WriteRun(m: Sectors, off: int, data: seq<byte>, size: nat, n: nat): Sectors
    requires Times(n, size) <= |data|
  {
    if n == 0 then m else
      TimesLe(n - 1, n, size);
      WriteRun(m, off, data, size, n - 1)[off + n - 1 := data[Times(n - 1, size)..Times(n, size)]]
  }

  lemma {:induction false} WriteElsewhere(m: Sectors, off: int, data: seq<byte>, size: nat, n: nat, s: int)
    requires Times(n, size) <= |data| && !(off <= s < off + n)
    ensures var w := WriteRun(m, off, data, size, n); (s in w <==> s in m) && (s in m ==> w[s] == m[s])
  {
    if n > 0 {
      TimesLe(n - 1, n, size);
      WriteElsewhere(m, off, data, size, n - 1, s);
    }
  }

  lemma {:induction false} WriteAt(m: Sectors, off: int, data: seq<byte>, size: nat, n: nat, k: nat)
    requires Times(n, size) <= |data| && k < n
    ensures Times(k + 1, size) <= |data| && Times(k, size) <= Times(k + 1, size)
    ensures var w := WriteRun(m, off, data, size, n);
      off + k in w && w[off + k] == data[Times(k, size)..Times(k + 1, size)]
  {
    TimesLe(n - 1, n, size);
    TimesLe(k + 1, n, size);
    TimesLe(k, k + 1, size);
    if k < n - 1 {
      WriteAt(m, off, data, size, n - 1, k);
    }
  }

  lemma {:induction false} ReadSame(m: Sectors, m': Sectors, off: int, n: nat)
    requires forall s :: off <= s < off + n ==> SameSector(m, m', s)
    ensures ReadRun(m', off, n) == ReadRun(m, off, n)
  {
    if n > 0 {
      ReadSame(m, m', off, n - 1);
      assert SameSector(m, m', off + n - 1);
    }
  }

  /** A block reads back as written. */
  lemma {:induction false} ReadBackRun(m: Sectors, off: int, data: seq<byte>, size: nat, n: nat, k: nat)
    requires Times(n, size) <= |data| && k <= n
    ensures Times(k, size) <= |data| && ReadRun(WriteRun(m, off, data, size, n), off, k) == data[..Times(k, size)]
  {
    hide WriteRun;
    TimesLe(k, n, size);
    if k > 0 {
      ReadBackRun(m, off, data, size, n, k - 1);
      WriteAt(m, off, data, size, n, k - 1);
      var a, b := Times(k - 1, size), Times(k, size);
      assert data[..a] + data[a..b] == data[..b];
    } else {
      assert data[..Times(0, size)] == [];
    }
  }

  // ----- the blocks as sectors -----

  /** A run of whole sectors: sector `k` of it, from the first. */
  lemma RunExact(m: Sectors, off: int, n: nat, size: nat, k: nat)
    requires k < n && forall s :: off <= s < off + n ==> s in m && |m[s]| == size
    ensures |ReadRun(m, off, n)| == n * size && k * size + size <= n * size
    ensures ReadRun(m, off, n)[k * size..k * size + size] == m[off + k]
  {
    hide ReadRun;
    var a, b, c := ReadRun(m, off, k), ReadRun(m, off + k, 1), ReadRun(m, off + (k + 1), n - k - 1);
    OneSector(m, off + k);
    RunsJoin(m, off, k, 1);
    RunsJoin(m, off, k + 1, n - k - 1);
    RunSize(m, off, k, size);
    RunSize(m, off, n, size);
    Middle(a, b, c);
  }

  lemma OneSector(m: Sectors, s: int)
    requires s in m
    ensures ReadRun(m, s, 1) == m[s]
  {
    assert ReadRun(m, s, 0) == [];
  }

  lemma Middle<T>(a: seq<T>, b: seq<T>, c: seq<T>)
    ensures |a| + |b| <= |a + b + c| && (a + b + c)[|a|..|a| + |b|] == b
  {
  }

  lemma {:induction false} RunSize(m: Sectors, off: int, n: nat, size: nat)
    requires forall s :: off <= s < off + n ==> s in m && |m[s]| == size
    ensures |ReadRun(m, off, n)| == n * size
  {
    if n > 0 {
      RunSize(m, off, n - 1, size);
      Next(n - 1, size);
    }
  }

  lemma Next(n: nat, size: nat)
    ensures (n + 1) * size == n * size + size
  {
  }

  /** The first `n` blocks of a partition, one after the other. */
  function Blocks(e: DosEnv, m: Sectors, n: nat): seq<byte> {
    if n == 0 then [] else Blocks(e, m, n - 1) + ReadRun(m, e.Sector(n - 1), e.secPerBlk)
  }

  /** The blocks in order are the sectors in order, from the first sector of the partition's low cylinder on. */
  lemma {:induction false} BlocksInOrder(e: DosEnv, m: Sectors, n: nat)
    ensures Blocks(e, m, n) == ReadRun(m, e.surfaces * e.blkPerTrk * e.lowCyl, n * e.secPerBlk)
  {
    hide ReadRun;
    var off := e.surfaces * e.blkPerTrk * e.lowCyl;
    if n > 0 {
      BlocksInOrder(e, m, n - 1);
      Next(n - 1, e.secPerBlk);
      RunsJoin(m, off, (n - 1) * e.secPerBlk, e.secPerBlk);
    } else {
      NoRun(m, off);
    }
  }

  lemma NoRun(m: Sectors, off: int)
    ensures ReadRun(m, off, 0) == []
  {
  }

  lemma {:induction false} RunsJoin(m: Sectors, off: int, a: nat, b: nat)
    ensures ReadRun(m, off, a) + ReadRun(m, off + a, b) == ReadRun(m, off, a + b)
  {
    if b > 0 {
      RunsJoin(m, off, a, b - 1);
      var last := if off + a + b - 1 in m then m[off + a + b - 1] else [];
      assert ReadRun(m, off, a) + (ReadRun(m, off + a, b - 1) + last)
        == ReadRun(m, off, a) + ReadRun(m, off + a, b - 1) + last;
    }
  }

  class RawDevice {
    const secBytes: nat
    var secs: Sectors

    constructor (secBytes: nat)
      ensures this.secBytes == secBytes && secs == map[]
    {
      this.secBytes, secs := secBytes, map[];
    }

    method ReadBlock(off: int, numBlks: nat) returns (data: seq<byte>)
      ensures data == ReadRun(secs, off, numBlks)
    {
      data := [];
      for i := 0 to numBlks
        invariant data == ReadRun(secs, off, i)
      {
        data := data + if off + i in secs then secs[off + i] else [];
      }
    }

    /** The data must be whole sectors, as many as said. */
    method WriteBlock(off: int, data: seq<byte>, numBlks: nat) returns (ok: bool)
      modifies this
      ensures ok <==> |data| == Times(numBlks, secBytes)
      ensures !ok ==> secs == old(secs)
      ensures ok ==> secs == WriteRun(old(secs), off, data, secBytes, numBlks)
    {
      TimesIsProduct(numBlks, secBytes);
      if |data| != numBlks * secBytes { return false; }
      var pos := 0;
      for i := 0 to numBlks
        invariant pos == Times(i, secBytes) <= |data|
        invariant secs == WriteRun(old(secs), off, data, secBytes, i)
      {
        TimesLe(i + 1, numBlks, secBytes);
        secs := secs[off + i := data[pos..pos + secBytes]];
        pos := pos + secBytes;
      }
      ok := true;
    }
  }

  /** Errors of the partition device, and the size error of the disk below. */
  datatype DevError = InvalidBlockNum | InvalidBlockSize | InvalidSectors

  class PartBlockDevice {
    const raw: RawDevice
    const env: DosEnv
    // set by `open`
    var blkOff: int
    var secPerBlk: nat
    var numBlocks: int
    var blockBytes: nat

    ghost predicate Opened()
      reads this
    {
      && env.secPerBlk >= 1 && blkOff == env.BlkOff() && secPerBlk == env.secPerBlk
      && numBlocks == env.NumBlocks() && blockBytes == env.BlockBytes()
    }

    constructor (raw: RawDevice, env: DosEnv)
      ensures this.raw == raw && this.env == env
    {
      this.raw, this.env := raw, env;
      blkOff, secPerBlk, numBlocks, blockBytes := 0, 1, 0, 0;
    }

    /** `open`: the geometry from the partition's DOS environment, which fails on blocks of no sectors. */
    method Open() returns (ok: bool)
      modifies this
      ensures ok <==> Opened()
      ensures ok <==> env.secPerBlk >= 1
      ensures ok ==> blkOff == env.surfaces * env.blkPerTrk * env.lowCyl && secPerBlk == env.secPerBlk
      ensures ok ==> numBlocks == (env.highCyl - env.lowCyl + 1) * env.surfaces * (env.blkPerTrk / env.secPerBlk)
      ensures ok ==> blockBytes == 4 * env.blockSize * env.secPerBlk
    {
      var cyls := env.highCyl - env.lowCyl + 1;
      var heads, secs := env.surfaces, env.blkPerTrk;
      // calc block offset of partition
      blkOff := heads * secs * env.lowCyl;
      // adjust block size and reduce secs
      secPerBlk := env.secPerBlk;
      if secPerBlk == 0 { return false; }
      secs := secs / secPerBlk;
      blockBytes := env.blockSize * 4 * secPerBlk;
      numBlocks := cyls * heads * secs;
      ok := true;
    }

    method ReadBlock(blkNum: int) returns (r: Option<seq<byte>>)
      requires Opened()
      ensures r == if blkNum >= env.NumBlocks() then None
        else Some(ReadRun(raw.secs, env.Sector(blkNum), env.secPerBlk))
    {
      if blkNum >= numBlocks { return None; }
      var off := blkOff + blkNum * secPerBlk;
      var data := raw.ReadBlock(off, secPerBlk);
      r := Some(data);
    }

    /** `write_block`: the block reads back as written, and no sector of another block, another partition
        or the RDB changes. */
    method WriteBlock(blkNum: int, data: seq<byte>) returns (err: Option<DevError>)
      requires Opened()
      modifies raw
      ensures err == if blkNum >= env.NumBlocks() then Some(InvalidBlockNum)
        else if |data| != env.BlockBytes() then Some(InvalidBlockSize)
        else if |data| != env.secPerBlk * raw.secBytes then Some(InvalidSectors) else None
      ensures err.Some? ==> raw.secs == old(raw.secs)
      ensures err.None? ==> ReadRun(raw.secs, env.Sector(blkNum), env.secPerBlk) == data
      ensures forall s :: !env.SectorOf(blkNum, s) ==> SameSector(old(raw.secs), raw.secs, s)
    {
      if blkNum >= numBlocks { return Some(InvalidBlockNum); }
      if |data| != blockBytes { return Some(InvalidBlockSize); }
      var off := blkOff + blkNum * secPerBlk;
      TimesIsProduct(secPerBlk, raw.secBytes);
      var ok := raw.WriteBlock(off, data, secPerBlk);
      if !ok { return Some(InvalidSectors); }
      ReadBackRun(old(raw.secs), off, data, raw.secBytes, secPerBlk, secPerBlk);
      forall s | !env.SectorOf(blkNum, s) ensures SameSector(old(raw.secs), raw.secs, s) {
        WriteElsewhere(old(raw.secs), off, data, raw.secBytes, secPerBlk, s);
      }
      err := None;
    }
  }

  /** Isolation: a write of block `b` of one partition changes no read of a valid block of another. */
  lemma Isolation(e: DosEnv, f: DosEnv, b: int, m: Sectors, m': Sectors, k: int)
    requires e.Valid() && f.Valid() && e.CylBlks() == f.CylBlks() && (e.highCyl < f.lowCyl || f.highCyl < e.lowCyl)
    requires 0 <= b < e.NumBlocks() && 0 <= k < f.NumBlocks()
    requires forall s :: !e.SectorOf(b, s) ==> SameSector(m, m', s)
    ensures ReadRun(m', f.Sector(k), f.secPerBlk) == ReadRun(m, f.Sector(k), f.secPerBlk)
  {
    forall s | f.SectorOf(k, s) ensures SameSector(m, m', s) {
      InsideIffNonNegative(e, b);
      InsideIffNonNegative(f, k);
      PartitionsApart(e, f, s);
    }
    ReadSame(m, m', f.Sector(k), f.secPerBlk);
  }

  /** ... and none of another block of the same partition, and no RDB block. */
  lemma IsolationWithin(e: DosEnv, b: int, m: Sectors, m': Sectors, k: int, rdbCyls: nat, rdbBlk: nat)
    requires e.Valid() && 0 <= b < e.NumBlocks() && k != b
    requires forall s :: !e.SectorOf(b, s) ==> SameSector(m, m', s)
    ensures ReadRun(m', e.Sector(k), e.secPerBlk) == ReadRun(m, e.Sector(k), e.secPerBlk)
    ensures rdbCyls <= e.lowCyl && rdbBlk < e.CylBlks() * rdbCyls ==> SameSector(m, m', rdbBlk)
  {
    forall s | e.SectorOf(k, s) ensures SameSector(m, m', s) {
      if e.SectorOf(b, s) { BlocksApart(e, b, k, s); }
    }
    ReadSame(m, m', e.Sector(k), e.secPerBlk);
    InsideIffNonNegative(e, b);
    if rdbCyls <= e.lowCyl && e.SectorOf(b, rdbBlk) { RdbApart(e, rdbCyls, rdbBlk); }
  }
}
