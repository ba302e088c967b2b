/** `RomBuilder` and `KickRomBuilder`: lay modules out in a ROM image that the detector accepts. */
module RomBuilders {
  import opened Bytes
  import opened KickRom

  function Concat(modules: seq<seq<byte>>, n: nat): seq<byte>
    requires n <= |modules|
  {
    if n == 0 then [] else Concat(modules, n - 1) + modules[n - 1]
  }

  function Fill(n: nat, b: byte): (r: seq<byte>)
    ensures |r| == n && forall k :: 0 <= k < n ==> r[k] == b
  {
    seq(n, _ => b)
  }

  lemma {:induction false} ConcatGrows(modules: seq<seq<byte>>, m: nat, n: nat)
    requires m <= n <= |modules|
    ensures |Concat(modules, m)| <= |Concat(modules, n)|
      && Concat(modules, n)[..|Concat(modules, m)|] == Concat(modules, m)
    decreases n
  {
    if m < n {
      ConcatGrows(modules, m, n - 1);
    } else {
      assert Concat(modules, n)[..|Concat(modules, n)|] == Concat(modules, n);
    }
  }

  /** The image before header check and footer: the modules in order, the rest filled. */
  function Laid(modules: seq<seq<byte>>, size: nat, fill: byte): (r: seq<byte>)
    requires |Concat(modules, |modules|)| <= size
    ensures |r| == size
  {
    var c := Concat(modules, |modules|);
    c + Fill(size - |c|, fill)
  }

  /** `write_rom_ver_rev`. */
  function WithVersion(s: seq<byte>, ver: Option<(word, word)>): (r: seq<byte>)
    requires |s| >= 16
    ensures |r| == |s| && forall k :: 0 <= k < |s| && !(12 <= k < 16) ==> r[k] == s[k]
  {
    if ver.None? then s else PutWord(PutWord(s, 12, ver.value.0), 14, ver.value.1)
  }

  /** An accepted header survives version and footer, and then everything else the detector wants is there. */
  lemma BuiltDetected(s: seq<byte>, ver: Option<(word, word)>)
    requires SizeOk(s) && HeaderOk(s)
    ensures Detect(WithFooter(WithVersion(s, ver))) == Ok
  {
    hide CheckSum, FooterOk, LongAt, WithFooter, WithVersion;
    var v := WithVersion(s, ver);
    FooterComplete(v);
    FooterFrame(v);
    var r := WithFooter(v);
    assert r[0..4] == s[0..4];
    LongAtSame(r, 0, s, 0);
  }

  /** What a built ROM looks like: a detected Kickstart with every module byte in place. */
  ghost predicate Built(r: seq<byte>, modules: seq<seq<byte>>, size: nat, fill: byte, ver: Option<(word, word)>) {
    var c := Concat(modules, |modules|);
    && |r| == size && |c| <= size - FOOTER_SIZE && Detect(r) == Ok
    && (forall k :: 0 <= k < |c| && (ver.None? || !(12 <= k < 16)) ==> r[k] == c[k])
    && (forall k :: |c| <= k < size - FOOTER_SIZE && (ver.None? || !(12 <= k < 16)) ==> r[k] == fill)
    && (ver.Some? ==> WordAt(r, 12) == ver.value.0 && WordAt(r, 14) == ver.value.1)
  }

  lemma BuiltOk(modules: seq<seq<byte>>, size: nat, fill: byte, ver: Option<(word, word)>)
    requires |Concat(modules, |modules|)| <= size - FOOTER_SIZE && (size == 256 * 1024 || size == 512 * 1024)
    requires HeaderOk(Laid(modules, size, fill))
    ensures Built(WithFooter(WithVersion(Laid(modules, size, fill), ver)), modules, size, fill, ver)
  {
    hide CheckSum, FooterOk, LongAt, WithFooter, Concat, HeaderOk, Detect;
    var s := Laid(modules, size, fill);
    BuiltDetected(s, ver);
    FooterFrame(WithVersion(s, ver));
    assert ver.None? ==> WithVersion(s, ver) == s;
  }

  class KickRomBuilder {
    const sizeBytes: nat
    const fillByte: byte
    const kicketySplit: bool
    const romVer: Option<(word, word)>
    var modules: seq<seq<byte>>
    var leftBytes: int
    var dataOff: nat

    ghost predicate Valid()
      reads this
    {
      && (sizeBytes == 256 * 1024 || sizeBytes == 512 * 1024)
      && dataOff == |Concat(modules, |modules|)|
      && leftBytes == sizeBytes - FOOTER_SIZE - (if kicketySplit then 8 else 0) - dataOff >= 0
    }

    /** `size` in KiB; any other size is an error. */
    constructor (size: nat, kicketySplit: bool, romVer: Option<(word, word)>, fillByte: byte)
      requires size == 256 || size == 512
      ensures Valid() && modules == [] && sizeBytes == size * 1024 && this.fillByte == fillByte && this.romVer == romVer
      ensures leftBytes == size * 1024 - 24 - if size == 512 && kicketySplit then 8 else 0
    {
      sizeBytes, this.fillByte, this.romVer := size * 1024, fillByte, romVer;
      this.kicketySplit := size == 512 && kicketySplit;
      modules, dataOff := [], 0;
      // we need a footer; extra rom header takes 8
      leftBytes := size * 1024 - 0x18 - (if size == 512 && kicketySplit then 8 else 0);
    }

    /** `add_module` without relocations: refused exactly when the bytes left do not suffice. */
    method AddModule(data: seq<byte>) returns (ok: bool)
      requires Valid()
      modifies this
      ensures Valid() && (ok <==> |data| <= old(leftBytes))
      ensures modules == if ok then old(modules) + [data] else old(modules)
      ensures leftBytes == old(leftBytes) - if ok then |data| else 0
    {
      var n := |data|;
      if n > leftBytes { return false; }
      // add entry
      ConcatAppend(modules, data, |modules|);
      modules := modules + [data];
      dataOff := dataOff + n;
      leftBytes := leftBytes - n;
      ok := true;
    }

    /** `RomBuilder.build_rom`: modules first, then the fill byte. */
    method LayOut() returns (rom: array<byte>)
      requires Valid()
      ensures fresh(rom) && rom[..] == Laid(modules, sizeBytes, fillByte)
    {
      hide Concat;
      rom := new byte[sizeBytes](_ => 0);
      var off := 0;
      ConcatNone(modules);
      // fill in modules
      for i := 0 to |modules|
        invariant off == |Concat(modules, i)| <= sizeBytes && rom[..off] == Concat(modules, i)
      {
        ConcatGrows(modules, i + 1, |modules|);
        ConcatNext(modules, i);
        var data := modules[i];
        ghost var before := rom[..off];
        forall k | 0 <= k < |data| { rom[off + k] := data[k]; }
        assert rom[..off] == before;
        assert rom[..off + |data|] == before + data;
        off := off + |data|;
      }
      // fill empty space
      ghost var c := Concat(modules, |modules|);
      while off < sizeBytes
        invariant |c| <= off <= sizeBytes && rom[..|c|] == c
        invariant forall k :: |c| <= k < off ==> rom[k] == fillByte
      {
        rom[off] := fillByte;
        off := off + 1;
      }
      assert rom[..] == c + rom[|c|..];
    }

    /** `build_rom`: an image exactly when the first module brought a ROM header, and then one that
        `detect_kick_rom` accepts, with no module byte overwritten but those of a custom version. */
    method BuildRom() returns (rom: array?<byte>)
      requires Valid()
      ensures rom == null <==> !HeaderOk(Laid(modules, sizeBytes, fillByte))
      ensures rom != null ==> fresh(rom) && Built(rom[..], modules, sizeBytes, fillByte, romVer)
    {
      hide CheckSum, LongAt, WithFooter, HeaderOk, Detect, Laid, WithVersion;
      var romData := LayOut();
      // add kick sum
      var kh := new KickRomAccess(romData);
      // ensure that first module brought the header
      var ok := kh.CheckHeader();
      if !ok { return null; }
      BuiltOk(modules, sizeBytes, fillByte, romVer);
      // write custom rev?
      WriteRomVerRev(romData, romVer);
      // write missing entries in footer
      kh.WriteExtFooter();
      rom := romData;
    }
  }

  method WriteRomVerRev(rom: array<byte>, ver: Option<(word, word)>)
    requires rom.Length >= 16
    modifies rom
    ensures rom[..] == WithVersion(old(rom[..]), ver)
  {
    hide PutWord;
    if ver.Some? {
      PackWord(rom, 12, ver.value.0);
      PackWord(rom, 14, ver.value.1);
    }
  }

  lemma ConcatNone(modules: seq<seq<byte>>)
    ensures Concat(modules, 0) == []
  {
  }

  lemma ConcatNext(modules: seq<seq<byte>>, i: nat)
    requires i < |modules|
    ensures Concat(modules, i + 1) == Concat(modules, i) + modules[i]
  {
  }

  lemma {:induction false} ConcatAppend(modules: seq<seq<byte>>, data: seq<byte>, n: nat)
    requires n <= |modules|
    ensures Concat(modules + [data], n) == Concat(modules, n)
    ensures Concat(modules + [data], |modules| + 1) == Concat(modules + [data], |modules|) + data
  {
    if n > 0 { ConcatAppend(modules, data, n - 1); }
  }
}
