/** An object built and verified: what is asked of the codec, the inputs and the limits can be had. */
module BootExample {
  import opened Wrappers
  import opened Bytes
  import opened BootObject
  import opened BootVerify
  import opened BootBuild

  /** A toy member: a one in front of each byte, a zero at the end. */
  function Spell(data: seq<Byte>): seq<Byte> {
    if data == [] then [0] else [1, data[0]] + Spell(data[1..])
  }

  function Unspell(s: seq<Byte>): Decoded {
    if s == [] then DecodeError
    else if s[0] == 0 then Decoded([], true, |s| - 1)
    else if |s| < 2 then DecodeError
    else
      match Unspell(s[2..])
      case DecodeError => DecodeError
      case Decoded(expanded, eof, unused) => Decoded([s[1]] + expanded, eof, unused)
  }

  function ToyCompress(data: seq<Byte>): seq<Byte> {
    GZIP_MAGIC + Spell(data)
  }

  function ToyCodec(e: Encoding, s: seq<Byte>): Decoded {
    if Starts(s, GZIP_MAGIC) then Unspell(s[2..]) else DecodeError
  }

  lemma {:induction false} SpellReads(data: seq<Byte>, rest: seq<Byte>)
    ensures Unspell(Spell(data) + rest) == Decoded(data, true, |rest|)
  {
    var s := Spell(data) + rest;
    if data == [] {
      assert s[1..] == rest;
    } else {
      assert s[2..] == Spell(data[1..]) + rest;
      SpellReads(data[1..], rest);
      assert [data[0]] + data[1..] == data;
    }
  }

  /** Self-delimiting members and a compressor that writes them exist. */
  lemma CodecExists()
    ensures Compresses(ToyCodec, ToyCompress)
  {
    forall data: seq<Byte>
      ensures Starts(ToyCompress(data), GZIP_MAGIC) && SelfDelimiting(ToyCodec, ToyCompress(data), data)
    {
      forall rest: seq<Byte>
        ensures ToyCodec(EncodingOf(ToyCompress(data)), ToyCompress(data) + rest) == Decoded(data, true, |rest|)
      {
        var s := ToyCompress(data) + rest;
        assert s[..2] == GZIP_MAGIC && s[2..] == Spell(data) + rest;
        SpellReads(data, rest);
      }
    }
  }

  // --------------------------------------------------------------------------
  // Inputs

  const M1N1: seq<Byte> := Zeros(0x800) + [1, 2, 3, 4] + Zeros(0x37fc)
  const IMAGE: seq<Byte> := Zeros(16) + [64, 0, 0, 0, 0, 0, 0, 0] + Zeros(32) + KERNEL_MAGIC + Zeros(4)
  const BOARD_DTB: seq<Byte> := FDT_MAGIC + [0, 0, 0, 40] + Zeros(32)
  const EXAMPLE := Inputs(M1N1, IMAGE, BOARD_DTB, ToyCompress(CPIO_NEWC), [0x61], false)
  const EXPANDED := Expansion(IMAGE, CPIO_NEWC, false)

  lemma PrefixFine()
    ensures PrefixOk(M1N1) && TextOk([0x61])
  {
    assert M1N1[0x800..0x804] == [1, 2, 3, 4];
    assert M1N1[0x800..0x804][0] != TERMINATOR[0];
  }

  lemma ImageFine()
    ensures |IMAGE| == 64 && IsImage(IMAGE) && ImageSize(IMAGE) == 64 && !IsMember(IMAGE)
  {
    hide FromLe;
    assert IMAGE[0x38..0x3c] == KERNEL_MAGIC;
    var size: seq<Byte> := [64, 0, 0, 0, 0, 0, 0, 0];
    assert IMAGE[0x10..0x18] == size;
    assert IMAGE[0] == 0;
    Sixtyfour();
  }

  lemma Sixtyfour()
    ensures FromLe([64, 0, 0, 0, 0, 0, 0, 0]) == 64
  {
    var size: seq<Byte> := [64, 0, 0, 0, 0, 0, 0, 0];
    ZeroNumber(size[1..]);
  }

  lemma DtbFine()
    ensures |BOARD_DTB| == 40 && DtbOk(BOARD_DTB)
  {
    assert BOARD_DTB[..4] == FDT_MAGIC;
    assert BOARD_DTB[4] == 0 && BOARD_DTB[5] == 0 && BOARD_DTB[6] == 0 && BOARD_DTB[7] == 40;
  }

  lemma InitramfsFine()
    ensures IsMember(ToyCompress(CPIO_NEWC)) && InitramfsOk(EXPANDED, false)
  {
    hide Spell;
    assert ToyCompress(CPIO_NEWC)[..2] == GZIP_MAGIC;
  }

  /** Some padding fills the last page. */
  lemma Filling(p: Parts) returns (zeros: nat)
    ensures Fills(p, zeros)
  {
    hide Assembled;
    var n := |Assembled(p, 4)|;
    var pad := if n % ALIGNMENT == 0 then 0 else ALIGNMENT - n % ALIGNMENT;
    zeros := 4 + pad;
    PadJoins(p, 4, pad);
  }

  /** The builder accepts the inputs, and strict verification what it builds from them. */
  lemma ExampleAccepted() returns (zeros: nat)
    ensures InputsOk(EXAMPLE) && Compresses(ToyCodec, ToyCompress) && Expands(ToyCodec, EXAMPLE, EXPANDED)
    ensures var p := PartsOf(ToyCompress, EXAMPLE);
            var image := Assembled(p, zeros);
            var expected := map[Kernel := p.kernel, Dtb := p.dtb, Initramfs := p.initramfs];
            Fills(p, zeros) && Verdict(ToyCodec, image,
                                       Request(M1N1, expected, Some([0x61]), true, false, |image|)).Some?
  {
    hide TextOk;
    hide PrefixOk;
    hide DtbOk;
    hide IsImage;
    hide ImageSize;
    hide IsMember;
    hide InitramfsOk;
    hide SelfDelimiting;
    hide Assembled;
    hide Fills;
    hide Verdict;
    PrefixFine();
    ImageFine();
    DtbFine();
    InitramfsFine();
    CodecExists();
    var p := PartsOf(ToyCompress, EXAMPLE);
    zeros := Filling(p);
    BuildThenVerify(ToyCodec, ToyCompress, EXAMPLE, EXPANDED, zeros, false, |Assembled(p, zeros)|);
  }
}
