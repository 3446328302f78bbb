/** The boot-object builder, and exactly when strict verification accepts what it builds.

    The compressor is a parameter; what is asked of it and of the decoders is that a member is
    self-delimiting: decoding it in front of any bytes consumes the member and nothing else. */
module BootBuild {
  import opened Wrappers
  import opened Bytes
  import opened Seqs
  import opened BootObject
  import opened BootVerify

  datatype Inputs = Inputs(
    m1n1: seq<Byte>, kernel: seq<Byte>, dtb: seq<Byte>, initramfs: seq<Byte>, bootargs: seq<Byte>, wrapped: bool)

  /** The constants, spelled. */
  lemma MagicsSpelled()
    ensures KERNEL_MAGIC == Ascii("ARMd") && GZIP_MAGIC == [0x1f, 0x8b]
    ensures XZ_MAGIC == [0xfd] + Ascii("7zXZ") + [0] && FDT_MAGIC == Be(0xd00d_feed)
  {
    TreeMagic();
  }

  lemma CpioSpelled()
    ensures CPIO_NEWC == Ascii("070701") && CPIO_CRC == Ascii("070702")
  {
  }

  lemma NamesSpelled()
    ensures SIGNATURE_MAGIC == Ascii("m1n1_sig") && INITRAMFS_MAGIC == Ascii("m1n1_initramfs")
    ensures LOGO_MAGIC == Ascii("m1n1_logo_256128") && BOOTARGS == Ascii("chosen.bootargs")
  {
  }

  lemma TreeMagic()
    ensures FDT_MAGIC == Be(0xd00d_feed)
  {
    hide FromLe;
    var t: seq<Byte> := [0xed, 0xfe, 0x0d, 0xd0];
    FromLe4(0xed, 0xfe, 0x0d, 0xd0);
    FromLeRoundTrip(t);
  }

  predicate IsMember(s: seq<Byte>) {
    Starts(s, GZIP_MAGIC) || Starts(s, XZ_MAGIC)
  }

  function EncodingOf(s: seq<Byte>): Encoding {
    if Starts(s, GZIP_MAGIC) then Gzip else Xz
  }

  /** The kernel as it goes into the object: a member as it is, an ARM64 Image compressed. */
  function KernelMember(compress: seq<Byte> -> seq<Byte>, data: seq<Byte>): (r: Option<seq<Byte>>)
    ensures r.Some? <==> IsMember(data) || (IsImage(data) && 0 < |data| <= ImageSize(data))
  {
    if IsMember(data) then Some(data)
    else if !IsImage(data) then None
    else if ImageSize(data) == 0 || |data| > ImageSize(data) then None
    else Some(compress(data))
  }

  predicate DtbOk(dtb: seq<Byte>) {
    |dtb| >= 8 && Starts(dtb, FDT_MAGIC) && Be32(dtb, 4) == |dtb|
  }

  /** A device tree: the magic, its own length big-endian, and the rest. */
  function Tree(body: seq<Byte>): seq<Byte> {
    FDT_MAGIC + Be(8 + |body|) + body
  }

  /** Every tree whose size field is its length is taken. */
  lemma TreeOk(body: seq<Byte>)
    requires 8 + |body| < 0x1_0000_0000
    ensures DtbOk(Tree(body)) && |Tree(body)| == 8 + |body|
  {
    hide Be;
    hide Be32;
    var t := Tree(body);
    assert t[4..8] == Be(8 + |body|);
    Be32Reads(t, 4, 8 + |body|);
  }

  predicate TextOk(bootargs: seq<Byte>) {
    IsAscii(bootargs) && NEWLINE !in bootargs && 0 !in bootargs
  }

  /** Boot arguments the builder takes: ASCII without newline or NUL. */
  lemma TextMeans(bootargs: seq<Byte>)
    ensures TextOk(bootargs) <==> forall i :: 0 <= i < |bootargs| ==> 0 < bootargs[i] < 128 && bootargs[i] != 10
  {
    assert forall i :: 0 <= i < |bootargs| ==> bootargs[i] in bootargs;
  }

  function Wrap(blob: seq<Byte>): seq<Byte> {
    INITRAMFS_MAGIC + Le(|blob|, 4) + blob
  }

  /** The initramfs as it goes into the object; the wrapper's size field has 32 bits. */
  function InitramfsMember(blob: seq<Byte>, wrapped: bool): (r: Option<seq<Byte>>)
    ensures r.Some? <==> if wrapped then !IsMember(blob) && |blob| < 0x1_0000_0000 else IsMember(blob)
  {
    if wrapped then
      if IsMember(blob) || |blob| >= 0x1_0000_0000 then None else Some(Wrap(blob))
    else if IsMember(blob) then Some(blob) else None
  }

  predicate InputsOk(i: Inputs) {
    && TextOk(i.bootargs) && PrefixOk(i.m1n1) && DtbOk(i.dtb)
    && (IsMember(i.kernel) || (IsImage(i.kernel) && 0 < |i.kernel| <= ImageSize(i.kernel)))
    && (if i.wrapped then !IsMember(i.initramfs) && |i.initramfs| < 0x1_0000_0000 else IsMember(i.initramfs))
  }

  /** What goes into an object, each part as it stands there. */
  datatype Parts = Parts(m1n1: seq<Byte>, bootargs: seq<Byte>, kernel: seq<Byte>, dtb: seq<Byte>, initramfs: seq<Byte>)

  function PartsOf(compress: seq<Byte> -> seq<Byte>, i: Inputs): Parts
    requires InputsOk(i)
  {
    Parts(i.m1n1, i.bootargs, KernelMember(compress, i.kernel).value, i.dtb,
          InitramfsMember(i.initramfs, i.wrapped).value)
  }

  function Assembled(p: Parts, zeros: nat): seq<Byte> {
    p.m1n1 + (Line(BOOTARGS, p.bootargs) + (p.kernel + (p.dtb + (p.initramfs + Zeros(zeros)))))
  }

  /** The least padding beyond the terminator that fills the last page. */
  predicate Fills(p: Parts, zeros: nat) {
    4 <= zeros < 4 + 0x4000 && |Assembled(p, zeros)| % 0x4000 == 0
  }

  method Build(compress: seq<Byte> -> seq<Byte>, i: Inputs) returns (r: Option<seq<Byte>>, ghost zeros: nat)
    ensures r.Some? <==> InputsOk(i)
    ensures r.Some? ==> Fills(PartsOf(compress, i), zeros) && r.value == Assembled(PartsOf(compress, i), zeros)
  {
    hide Le;
    hide Line;
    hide Zeros;
    hide Be32;
    hide IsAscii;
    hide IsImage;
    hide ImageSize;
    hide IsMember;
    zeros := 4;
    if NEWLINE in i.bootargs || 0 in i.bootargs { return None, zeros; }
    if |i.m1n1| % ALIGNMENT != 0 || |i.m1n1| <= RAW_ENTRY_POINT + 4 { return None, zeros; }
    if i.m1n1[RAW_ENTRY_POINT..RAW_ENTRY_POINT + 4] == TERMINATOR { return None, zeros; }
    var kernel := KernelMember(compress, i.kernel);
    if kernel.None? { return None, zeros; }
    if |i.dtb| < 8 || !Starts(i.dtb, FDT_MAGIC) || Be32(i.dtb, 4) != |i.dtb| { return None, zeros; }
    var initramfs := i.initramfs;
    if i.wrapped {
      if IsMember(initramfs) || |initramfs| >= 0x1_0000_0000 { return None, zeros; }
      initramfs := INITRAMFS_MAGIC + Le(|initramfs|, 4) + initramfs;
    } else if !IsMember(initramfs) {
      return None, zeros;
    }
    if !IsAscii(i.bootargs) { return None, zeros; }
    var output := i.m1n1 + Line(BOOTARGS, i.bootargs) + kernel.value + i.dtb + initramfs + Zeros(4);
    ghost var p := PartsOf(compress, i);
    Joins(i.m1n1, Line(BOOTARGS, i.bootargs), kernel.value, i.dtb, initramfs, Zeros(4));
    assert output == Assembled(p, 4);
    if |output| % ALIGNMENT != 0 {
      var pad := ALIGNMENT - |output| % ALIGNMENT;
      PadJoins(p, 4, pad);
      output := output + Zeros(pad);
      zeros := 4 + pad;
    }
    return Some(output), zeros;
  }

  lemma Joins(a: seq<Byte>, b: seq<Byte>, c: seq<Byte>, d: seq<Byte>, e: seq<Byte>, f: seq<Byte>)
    ensures a + b + c + d + e + f == a + (b + (c + (d + (e + f))))
  {
  }

  lemma PadJoins(p: Parts, zeros: nat, pad: nat)
    ensures Assembled(p, zeros) + Zeros(pad) == Assembled(p, zeros + pad)
    ensures |Assembled(p, zeros + pad)| == |Assembled(p, zeros)| + pad
  {
    assert Zeros(zeros) + Zeros(pad) == Zeros(zeros + pad);
  }

  // --------------------------------------------------------------------------
  // What is asked of the codec

  /** Decoding the member in front of any bytes gives the same expansion and leaves those bytes. */
  ghost predicate SelfDelimiting(codec: Codec, member: seq<Byte>, expanded: seq<Byte>) {
    forall rest :: codec(EncodingOf(member), member + rest) == Decoded(expanded, true, |rest|)
  }

  /** The compressor writes gzip members that expand to what was compressed. */
  ghost predicate Compresses(codec: Codec, compress: seq<Byte> -> seq<Byte>) {
    forall data :: Starts(compress(data), GZIP_MAGIC) && SelfDelimiting(codec, compress(data), data)
  }

  // --------------------------------------------------------------------------
  // Each part as the verifier's scan sees it

  /** The first byte alone tells the kinds of payload apart. */
  lemma FirstByte(codec: Codec, r: seq<Byte>, offset: nat, allowFsImage: bool)
    requires r != []
    ensures r[0] == 0x63 ==> Scan(codec, r, offset, allowFsImage) == ScanVariable(r, offset)
    ensures Starts(r, GZIP_MAGIC) ==> Scan(codec, r, offset, allowFsImage) == ScanCompressed(codec, Gzip, r, offset)
    ensures Starts(r, XZ_MAGIC) ==> Scan(codec, r, offset, allowFsImage) == ScanCompressed(codec, Xz, r, offset)
    ensures Starts(r, FDT_MAGIC) ==> Scan(codec, r, offset, allowFsImage) == ScanDtb(r, offset)
    ensures Starts(r, INITRAMFS_MAGIC) ==> Scan(codec, r, offset, allowFsImage) == ScanWrapper(r, offset, allowFsImage)
  {
    hide ScanCompressed;
    hide ScanDtb;
    hide ScanWrapper;
    hide ScanSignature;
    hide ScanLogo;
    hide ScanVariable;
  }

  lemma ScanOfLine(codec: Codec, bootargs: seq<Byte>, rest: seq<Byte>, offset: nat, allowFsImage: bool)
    requires TextOk(bootargs)
    ensures Scan(codec, Line(BOOTARGS, bootargs) + rest, offset, allowFsImage) ==
            if |bootargs| <= 1024 then
              Some(Payload(Record(Variable, Named(BOOTARGS), offset, |Line(BOOTARGS, bootargs)|, None, 0),
                           Some(bootargs)))
            else None
  {
    hide Scan;
    hide ParseVariable;
    var r := Line(BOOTARGS, bootargs) + rest;
    assert r[0] == 0x63;
    FirstByte(codec, r, offset, allowFsImage);
    ParseOfLine(bootargs, rest);
  }

  lemma ParseOfLine(bootargs: seq<Byte>, rest: seq<Byte>)
    requires TextOk(bootargs)
    ensures ParseVariable(Line(BOOTARGS, bootargs) + rest) ==
            if |bootargs| <= 1024 then GoodVariable(BOOTARGS, bootargs, |Line(BOOTARGS, bootargs)|) else BadVariable
  {
    hide ParseVariable;
    NameOk();
    ParseOfAnyLine(BOOTARGS, bootargs, rest);
  }

  /** Any variable line: a name of at most 64 bytes and a value of at most 1024 are read, both in ASCII;
      a longer name is none, and everything else an error. */
  lemma ParseOfAnyLine(name: seq<Byte>, value: seq<Byte>, rest: seq<Byte>)
    requires EQUALS !in name && NEWLINE !in value
    ensures ParseVariable(Line(name, value) + rest) ==
            if |name| > 64 then NoVariable
            else if name != [] && |value| <= 1024 && IsAscii(name) && IsAscii(value)
            then GoodVariable(name, value, |Line(name, value)|) else BadVariable
  {
    hide Find;
    hide IsAscii;
    if |name| <= 64 {
      LineFinds(name, value, rest);
    } else {
      LineAtIndex(name, value, rest);
      FindNot(Line(name, value) + rest, EQUALS, 0, 65);
    }
  }

  lemma NameOk()
    ensures IsAscii(BOOTARGS) && EQUALS !in BOOTARGS && |BOOTARGS| == 15
  {
  }

  lemma LineFinds(name: seq<Byte>, value: seq<Byte>, rest: seq<Byte>)
    requires EQUALS !in name && |name| <= 64 && NEWLINE !in value
    ensures var r := Line(name, value) + rest;
            var n := |name|;
            && Find(r, EQUALS, 0, 65) == Some(n)
            && Find(r, NEWLINE, n + 1, n + 1026) == (if |value| <= 1024 then Some(n + 1 + |value|) else None)
            && |r| > n + 1 + |value| && r[..n] == name && r[n + 1..n + 1 + |value|] == value
  {
    hide Line;
    hide Find;
    var r := Line(name, value) + rest;
    var n := |name|;
    LineAtIndex(name, value, rest);
    FindIs(r, EQUALS, 0, 65, n);
    if |value| <= 1024 {
      FindIs(r, NEWLINE, n + 1, n + 1026, n + 1 + |value|);
    } else {
      FindNot(r, NEWLINE, n + 1, n + 1026);
    }
  }

  lemma LineAtIndex(name: seq<Byte>, value: seq<Byte>, rest: seq<Byte>)
    ensures var r := Line(name, value) + rest;
            var n := |name|;
            && |r| > n + 1 + |value| && r[..n] == name && r[n + 1..n + 1 + |value|] == value
            && (forall k :: 0 <= k < n ==> r[k] == name[k]) && r[n] == EQUALS
            && (forall k :: n + 1 <= k < n + 1 + |value| ==> r[k] == value[k - n - 1])
            && r[n + 1 + |value|] == NEWLINE
  {
  }

  lemma FindNot(s: seq<Byte>, b: Byte, lo: nat, hi: nat)
    requires hi <= |s| && forall k :: lo <= k < hi ==> s[k] != b
    ensures Find(s, b, lo, hi) == None
  {
  }

  lemma FindIs(s: seq<Byte>, b: Byte, lo: nat, hi: nat, at: nat)
    requires lo <= at < hi && at < |s| && s[at] == b && forall k :: lo <= k < at ==> s[k] != b
    ensures Find(s, b, lo, hi) == Some(at)
  {
  }

  lemma ScanOfMember(codec: Codec, member: seq<Byte>, expanded: seq<Byte>, rest: seq<Byte>, offset: nat,
                     allowFsImage: bool)
    requires IsMember(member) && SelfDelimiting(codec, member, expanded)
    ensures Scan(codec, member + rest, offset, allowFsImage) ==
            var c := Classify(expanded);
            if c.None? || |expanded| > 0x4000_0000 then None
            else Some(Payload(Record(c.value.role, Compressed(EncodingOf(member)), offset, |member|, Some(|expanded|),
                                     c.value.reserve), None))
  {
    hide Classify;
    hide Scan;
    var r := member + rest;
    if Starts(member, GZIP_MAGIC) {
      assert Starts(r, GZIP_MAGIC);
    } else {
      assert Starts(r, XZ_MAGIC);
    }
    FirstByte(codec, r, offset, allowFsImage);
    assert codec(EncodingOf(member), r) == Decoded(expanded, true, |rest|);
  }

  lemma ScanOfDtb(codec: Codec, dtb: seq<Byte>, rest: seq<Byte>, offset: nat, allowFsImage: bool)
    requires DtbOk(dtb)
    ensures Scan(codec, dtb + rest, offset, allowFsImage) ==
            if 40 <= |dtb| <= 0x20_0000 then
              Some(Payload(Record(Dtb, Raw, offset, |dtb|, Some(|dtb|), |dtb| + 0x1_8000), None))
            else None
  {
    hide Scan;
    var r := dtb + rest;
    FirstByte(codec, r, offset, allowFsImage);
    assert Be32(r, 4) == Be32(dtb, 4);
    assert Starts(r, FDT_MAGIC);
  }

  lemma ScanOfWrapped(codec: Codec, blob: seq<Byte>, rest: seq<Byte>, offset: nat, allowFsImage: bool)
    requires |blob| < 0x1_0000_0000
    ensures Scan(codec, Wrap(blob) + rest, offset, allowFsImage) ==
            if WrappedOk(blob, allowFsImage) && |blob| <= 0x800_0000 then
              Some(Payload(Record(Initramfs, Wrapper, offset, |Wrap(blob)|, Some(|blob|), |blob|), None))
            else None
  {
    hide FromLe;
    hide Le;
    hide WrappedOk;
    hide Scan;
    var r := Wrap(blob) + rest;
    var n := |INITRAMFS_MAGIC|;
    assert r[..n] == INITRAMFS_MAGIC;
    FirstByte(codec, r, offset, allowFsImage);
    assert r[n..n + 4] == Le(|blob|, 4);
    Limits();
    LeRoundTrip(|blob|, 4);
    assert r[n + 4..n + 4 + |blob|] == blob;
  }

  /** What may stand in the wrapper: a cpio archive, or where that is asked for an ext file system. */
  lemma WrappedMeans(payload: seq<Byte>, allowFsImage: bool)
    ensures WrappedOk(payload, allowFsImage) <==>
              || Ascii("070701") <= payload || Ascii("070702") <= payload
              || (allowFsImage && |payload| > 0x440 && payload[0x438] == 0x53 && payload[0x439] == 0xef)
  {
    hide Ascii;
    CpioSpelled();
    if |payload| > 0x440 {
      assert payload[0x438..0x43a] == [payload[0x438], payload[0x439]];
    }
  }

  /** A signature in front of anything: its length field counts all of it. */
  lemma ScanOfSignature(codec: Codec, body: seq<Byte>, rest: seq<Byte>, offset: nat, allowFsImage: bool)
    requires 12 + |body| < 0x1_0000_0000
    ensures Scan(codec, SIGNATURE_MAGIC + Le(12 + |body|, 4) + body + rest, offset, allowFsImage)
            == Some(Payload(Record(Signature, SignatureBlock, offset, 12 + |body|, None, 0), None))
  {
    hide Le;
    hide FromLe;
    hide Scan;
    var r := SIGNATURE_MAGIC + Le(12 + |body|, 4) + body + rest;
    assert r[..8] == SIGNATURE_MAGIC;
    assert r[8..12] == Le(12 + |body|, 4);
    SixthByte(codec, r, offset, allowFsImage);
    Limits();
    LeRoundTrip(12 + |body|, 4);
  }

  /** The m1n1 payloads differ in their sixth byte. */
  lemma SixthByte(codec: Codec, r: seq<Byte>, offset: nat, allowFsImage: bool)
    requires Starts(r, SIGNATURE_MAGIC) || Starts(r, LOGO_MAGIC)
    ensures Starts(r, SIGNATURE_MAGIC) ==> Scan(codec, r, offset, allowFsImage) == ScanSignature(r, offset)
    ensures Starts(r, LOGO_MAGIC) ==> Scan(codec, r, offset, allowFsImage) == ScanLogo(r, offset)
  {
    hide ScanCompressed;
    hide ScanDtb;
    hide ScanWrapper;
    hide ScanSignature;
    hide ScanLogo;
    hide ScanVariable;
    assert r[0] == 0x6d;
    var sixth := r[5];
    assert Starts(r, INITRAMFS_MAGIC) ==> sixth == 0x69;
    assert Starts(r, SIGNATURE_MAGIC) ==> sixth == 0x73;
    assert Starts(r, LOGO_MAGIC) ==> sixth == 0x6c;
  }

  /** A logo: both pictures, four bytes a pixel. */
  lemma ScanOfLogo(codec: Codec, pixels: seq<Byte>, rest: seq<Byte>, offset: nat, allowFsImage: bool)
    requires |pixels| == 4 * (256 * 256 + 128 * 128)
    ensures Scan(codec, LOGO_MAGIC + pixels + rest, offset, allowFsImage)
            == Some(Payload(Record(Logo, Rgba, offset, 16 + |pixels|, None, 0), None))
  {
    hide Scan;
    var r := LOGO_MAGIC + pixels + rest;
    assert r[..16] == LOGO_MAGIC;
    SixthByte(codec, r, offset, allowFsImage);
  }

  lemma ScanOfZeros(codec: Codec, zeros: nat, offset: nat, allowFsImage: bool)
    requires zeros >= 4
    ensures Scan(codec, Zeros(zeros), offset, allowFsImage)
            == Some(Payload(Record(Terminator, Zero, offset, zeros, None, 0), None))
  {
    assert Zeros(zeros)[..4] == TERMINATOR;
  }

  /** A member is taken exactly if the decoder came to its end within a gibibyte, having used something;
      what it used is what it did not leave over. */
  lemma DecompressExactly(codec: Codec, e: Encoding, data: seq<Byte>)
    ensures var d, r := codec(e, data), Decompress(codec, e, data);
            && (r.Some? <==> d.Decoded? && d.eof && |d.expanded| <= 0x4000_0000 && d.unused < |data|)
            && (r.Some? ==> r.value.expanded == d.expanded && r.value.consumed + d.unused == |data|)
  {
  }

  /** After four zeros there may be nothing but zeros. */
  lemma ZerosOnly(codec: Codec, r: seq<Byte>, offset: nat, allowFsImage: bool)
    requires Zeros(4) <= r
    ensures Scan(codec, r, offset, allowFsImage).Some? <==> AllZero(r)
  {
    hide ScanCompressed;
    hide ScanDtb;
    hide ScanWrapper;
    hide ScanSignature;
    hide ScanLogo;
    hide ScanVariable;
    assert Zeros(4) == TERMINATOR;
  }

  // --------------------------------------------------------------------------
  // The scan of the whole

  /** One step of the scan over data = before + part + rest. */
  lemma ParseStep(codec: Codec, data: seq<Byte>, before: seq<Byte>, part: seq<Byte>, rest: seq<Byte>, s: Stream,
                  allowFsImage: bool)
    requires data == before + (part + rest) && part != []
    ensures var p := Scan(codec, part + rest, |before|, allowFsImage);
            && (p.None? ==> ParseFrom(codec, data, |before|, s, allowFsImage).None?)
            && (p.Some? && p.value.record.size == |part| && p.value.value.None? ==>
                  ParseFrom(codec, data, |before|, s, allowFsImage)
                  == ParseFrom(codec, data, |before + part|, Extended(s, p.value), allowFsImage))
            && (p.Some? && p.value.record.size == |part| && p.value.value.Some? && p.value.record.form.Named?
                && p.value.record.form.name !in s.variables ==>
                  ParseFrom(codec, data, |before|, s, allowFsImage)
                  == ParseFrom(codec, data, |before + part|, Extended(s, p.value), allowFsImage))
  {
    hide Scan;
    assert data[|before|..] == part + rest;
  }

  /** What a compressed or wrapped member holds, once expanded. */
  datatype Expansion = Expansion(kernel: seq<Byte>, initramfs: seq<Byte>, wrapped: bool)

  /** Parts as the builder leaves them, and what their members expand to. */
  ghost predicate Ready(codec: Codec, p: Parts, x: Expansion) {
    && TextOk(p.bootargs) && PrefixOk(p.m1n1) && DtbOk(p.dtb)
    && IsMember(p.kernel) && SelfDelimiting(codec, p.kernel, x.kernel)
    && if x.wrapped then |x.initramfs| < 0x1_0000_0000 && p.initramfs == Wrap(x.initramfs)
       else IsMember(p.initramfs) && SelfDelimiting(codec, p.initramfs, x.initramfs)
  }

  predicate KernelOk(expanded: seq<Byte>) {
    IsImage(expanded) && |expanded| <= ImageSize(expanded) <= 0x2000_0000
  }

  predicate InitramfsOk(x: Expansion, allowFsImage: bool) {
    && |x.initramfs| <= 0x800_0000
    && if x.wrapped then WrappedOk(x.initramfs, allowFsImage)
       else IsCpio(x.initramfs) && !IsImage(x.initramfs)
  }

  /** The verifier's limits on the contents. */
  predicate Within(p: Parts, x: Expansion, allowFsImage: bool) {
    && |p.bootargs| <= 1024 && KernelOk(x.kernel) && 40 <= |p.dtb| <= 0x20_0000
    && InitramfsOk(x, allowFsImage)
  }

  function LineRecord(p: Parts): Record {
    Record(Variable, Named(BOOTARGS), |p.m1n1|, |Line(BOOTARGS, p.bootargs)|, None, 0)
  }

  function KernelRecord(p: Parts, x: Expansion, at: nat): Record
    requires IsImage(x.kernel)
  {
    Record(Kernel, Compressed(EncodingOf(p.kernel)), at, |p.kernel|, Some(|x.kernel|), ImageSize(x.kernel))
  }

  function DtbRecord(p: Parts, at: nat): Record {
    Record(Dtb, Raw, at, |p.dtb|, Some(|p.dtb|), |p.dtb| + 0x1_8000)
  }

  function InitramfsRecord(p: Parts, x: Expansion, at: nat): Record {
    Record(Initramfs, if x.wrapped then Wrapper else Compressed(EncodingOf(p.initramfs)), at, |p.initramfs|,
           Some(|x.initramfs|), |x.initramfs|)
  }

  /** The scan of an assembled object: one record a part. */
  function PartRecords(p: Parts, x: Expansion, zeros: nat): seq<Record>
    requires IsImage(x.kernel)
  {
    var k := |p.m1n1| + |Line(BOOTARGS, p.bootargs)|;
    var d := k + |p.kernel|;
    var i := d + |p.dtb|;
    var t := i + |p.initramfs|;
    [LineRecord(p), KernelRecord(p, x, k), DtbRecord(p, d), InitramfsRecord(p, x, i),
     Record(Terminator, Zero, t, zeros, None, 0)]
  }

  lemma ClassifyMeans(data: seq<Byte>)
    ensures (Classify(data).Some? && Classify(data).value.role == Kernel) <==> KernelOk(data)
    ensures KernelOk(data) ==> Classify(data).value == Content(Kernel, ImageSize(data))
    ensures (Classify(data).Some? && Classify(data).value.role == Initramfs)
            <==> |data| <= 0x800_0000 && IsCpio(data) && !IsImage(data)
    ensures (Classify(data).Some? && Classify(data).value.role == Initramfs) ==> Classify(data).value.reserve == |data|
    ensures (Classify(data).Some? && Classify(data).value.role == Dtb)
            <==> DtbOk(data) && |data| <= 0x20_0000 && !IsImage(data)
    ensures (Classify(data).Some? && Classify(data).value.role == Dtb) ==>
            Classify(data).value.reserve == |data| + 0x1_8000
  {
    assert IsCpio(data) ==> data[0] == 0x30;
    assert Starts(data, FDT_MAGIC) ==> data[0] == 0xd0;
  }

  /** What the initramfs part scans to, compressed or wrapped. */
  lemma ScanOfInitramfs(codec: Codec, p: Parts, x: Expansion, rest: seq<Byte>, offset: nat, allowFsImage: bool)
    requires Ready(codec, p, x)
    ensures var r := Scan(codec, p.initramfs + rest, offset, allowFsImage);
            && (InitramfsOk(x, allowFsImage) ==> r == Some(Payload(InitramfsRecord(p, x, offset), None)))
            && (!InitramfsOk(x, allowFsImage) && r.Some? ==>
                  && r.value.value.None? && r.value.record.size == |p.initramfs|
                  && IsPayload(r.value.record) && r.value.record.role != Initramfs)
  {
    hide Scan;
    hide Classify;
    hide SelfDelimiting;
    hide Wrap;
    hide IsCpio;
    hide IsImage;
    hide WrappedOk;
    if x.wrapped {
      ScanOfWrapped(codec, x.initramfs, rest, offset, allowFsImage);
    } else {
      ScanOfMember(codec, p.initramfs, x.initramfs, rest, offset, allowFsImage);
      ClassifyMeans(x.initramfs);
    }
  }

  lemma ScanOfKernel(codec: Codec, p: Parts, x: Expansion, rest: seq<Byte>, offset: nat, allowFsImage: bool)
    requires Ready(codec, p, x)
    ensures var r := Scan(codec, p.kernel + rest, offset, allowFsImage);
            && (KernelOk(x.kernel) ==> r == Some(Payload(KernelRecord(p, x, offset), None)))
            && (!KernelOk(x.kernel) && r.Some? ==>
                  && r.value.value.None? && r.value.record.size == |p.kernel|
                  && IsPayload(r.value.record) && r.value.record.role != Kernel)
  {
    hide Scan;
    hide Classify;
    hide SelfDelimiting;
    hide IsImage;
    hide ImageSize;
    ScanOfMember(codec, p.kernel, x.kernel, rest, offset, allowFsImage);
    ClassifyMeans(x.kernel);
  }

  // --------------------------------------------------------------------------
  // The scan of an assembled object, part by part

  /** Where each part starts. */
  function Before(p: Parts, n: nat): seq<Byte>
    requires n <= 4
  {
    if n == 0 then p.m1n1 else Before(p, n - 1) + Part(p, n - 1)
  }

  function Part(p: Parts, n: nat): seq<Byte>
    requires n <= 3
  {
    match n
    case 0 => Line(BOOTARGS, p.bootargs)
    case 1 => p.kernel
    case 2 => p.dtb
    case _ => p.initramfs
  }

  function After(p: Parts, n: nat, zeros: nat): seq<Byte>
    requires n <= 4
    decreases 4 - n
  {
    if n == 4 then Zeros(zeros) else Part(p, n) + After(p, n + 1, zeros)
  }

  lemma {:induction false} Cut(p: Parts, n: nat, zeros: nat)
    requires n <= 4
    ensures Assembled(p, zeros) == Before(p, n) + After(p, n, zeros)
  {
    hide Line;
    hide Zeros;
    if n == 0 {
      assert After(p, 3, zeros) == p.initramfs + Zeros(zeros);
      assert After(p, 2, zeros) == p.dtb + After(p, 3, zeros);
      assert After(p, 1, zeros) == p.kernel + After(p, 2, zeros);
    } else {
      Cut(p, n - 1, zeros);
      Associate(Before(p, n - 1), Part(p, n - 1), After(p, n, zeros));
    }
  }

  /** The scan of part n, when the part is in order and when it is not. */
  lemma ParsePart(codec: Codec, p: Parts, n: nat, zeros: nat, s: Stream, allowFsImage: bool)
    requires n <= 3 && Part(p, n) != []
    ensures var data := Assembled(p, zeros);
            var r := Scan(codec, Part(p, n) + After(p, n + 1, zeros), |Before(p, n)|, allowFsImage);
            var all := ParseFrom(codec, data, |Before(p, n)|, s, allowFsImage);
            && (r.None? ==> all.None?)
            && (r.Some? && r.value.record.size == |Part(p, n)|
                && (r.value.value.Some? ==> r.value.record.form.Named? && r.value.record.form.name !in s.variables) ==>
                  all == ParseFrom(codec, data, |Before(p, n + 1)|, Extended(s, r.value), allowFsImage))
  {
    hide Scan;
    hide Line;
    hide Part;
    hide ParseFrom;
    Cut(p, n, zeros);
    ParseStep(codec, Assembled(p, zeros), Before(p, n), Part(p, n), After(p, n + 1, zeros), s, allowFsImage);
  }

  /** The prefix's end and the parts' ends, in numbers. */
  lemma Offsets(p: Parts)
    ensures |Before(p, 0)| == |p.m1n1|
    ensures |Before(p, 1)| == |p.m1n1| + |Line(BOOTARGS, p.bootargs)|
    ensures |Before(p, 2)| == |Before(p, 1)| + |p.kernel|
    ensures |Before(p, 3)| == |Before(p, 2)| + |p.dtb|
    ensures |Before(p, 4)| == |Before(p, 3)| + |p.initramfs|
  {
    hide Line;
  }

  /** What has been recorded after n parts. */
  function Taken(p: Parts, x: Expansion, zeros: nat, n: nat): Stream
    requires n <= 5 && IsImage(x.kernel)
  {
    Stream(PartRecords(p, x, zeros)[..n], map[BOOTARGS := p.bootargs])
  }

  function Whole(codec: Codec, p: Parts, zeros: nat, allowFsImage: bool): Option<Stream> {
    ParseFrom(codec, Assembled(p, zeros), |p.m1n1|, Stream([], map[]), allowFsImage)
  }

  /** The scan failed or found payloads other than kernel, DTB, initramfs. */
  predicate Refused(r: Option<Stream>) {
    r.None? || Roles(Payloads(r.value.records)) != ORDER
  }

  lemma AfterLine(codec: Codec, p: Parts, zeros: nat, allowFsImage: bool)
    requires TextOk(p.bootargs)
    ensures |p.bootargs| > 1024 ==> Whole(codec, p, zeros, allowFsImage).None?
    ensures |p.bootargs| <= 1024 ==>
            Whole(codec, p, zeros, allowFsImage)
            == ParseFrom(codec, Assembled(p, zeros), |Before(p, 1)|,
                         Stream([LineRecord(p)], map[BOOTARGS := p.bootargs]), allowFsImage)
  {
    hide Scan;
    hide ParseFrom;
    hide Line;
    hide Assembled;
    hide After;
    hide TextOk;
    LineNonempty(p.bootargs);
    Offsets(p);
    ScanOfLine(codec, p.bootargs, After(p, 1, zeros), |p.m1n1|, allowFsImage);
    var empty := Stream([], map[]);
    ParsePart(codec, p, 0, zeros, empty, allowFsImage);
    assert empty.records + [LineRecord(p)] == [LineRecord(p)];
    assert empty.variables[BOOTARGS := p.bootargs] == map[BOOTARGS := p.bootargs];
  }

  lemma LineNonempty(bootargs: seq<Byte>)
    ensures |Line(BOOTARGS, bootargs)| > 0
  {
  }

  lemma AfterKernel(codec: Codec, p: Parts, x: Expansion, zeros: nat, allowFsImage: bool)
    requires Ready(codec, p, x)
    ensures var one := ParseFrom(codec, Assembled(p, zeros), |Before(p, 1)|,
                                 Stream([LineRecord(p)], map[BOOTARGS := p.bootargs]), allowFsImage);
            && (KernelOk(x.kernel) ==>
                  one == ParseFrom(codec, Assembled(p, zeros), |Before(p, 2)|, Taken(p, x, zeros, 2), allowFsImage))
            && (!KernelOk(x.kernel) ==> Refused(one))
  {
    hide Scan;
    hide ParseFrom;
    hide Line;
    hide Assembled;
    hide After;
    hide TextOk;
    hide SelfDelimiting;
    hide PrefixOk;
    hide Payloads;
    hide Roles;
    Offsets(p);
    var s := Stream([LineRecord(p)], map[BOOTARGS := p.bootargs]);
    var at := |Before(p, 1)|;
    ScanOfKernel(codec, p, x, After(p, 2, zeros), at, allowFsImage);
    ParsePart(codec, p, 1, zeros, s, allowFsImage);
    if KernelOk(x.kernel) {
      assert s.records + [KernelRecord(p, x, at)] == PartRecords(p, x, zeros)[..2];
    } else {
      var r := Scan(codec, p.kernel + After(p, 2, zeros), at, allowFsImage);
      var one := ParseFrom(codec, Assembled(p, zeros), at, s, allowFsImage);
      if r.Some? && one.Some? {
        ParseKeeps(codec, Assembled(p, zeros), |Before(p, 2)|, Extended(s, r.value), allowFsImage);
        NoPayloadYet(LineRecord(p));
        WrongRole(s.records, r.value.record, one.value.records);
      }
    }
  }

  lemma NoPayloadYet(r: Record)
    requires !IsPayload(r)
    ensures Payloads([r]) == []
  {
    assert [r][..0] == [];
  }

  lemma AfterDtb(codec: Codec, p: Parts, x: Expansion, zeros: nat, allowFsImage: bool)
    requires Ready(codec, p, x) && KernelOk(x.kernel)
    ensures var two := ParseFrom(codec, Assembled(p, zeros), |Before(p, 2)|, Taken(p, x, zeros, 2), allowFsImage);
            if 40 <= |p.dtb| <= 0x20_0000 then
              two == ParseFrom(codec, Assembled(p, zeros), |Before(p, 3)|, Taken(p, x, zeros, 3), allowFsImage)
            else two.None?
  {
    hide Scan;
    hide ParseFrom;
    hide Line;
    hide Assembled;
    hide After;
    hide SelfDelimiting;
    hide PrefixOk;
    hide KernelRecord;
    Offsets(p);
    var s := Taken(p, x, zeros, 2);
    var at := |Before(p, 2)|;
    ScanOfDtb(codec, p.dtb, After(p, 3, zeros), at, allowFsImage);
    ParsePart(codec, p, 2, zeros, s, allowFsImage);
    assert s.records + [DtbRecord(p, at)] == PartRecords(p, x, zeros)[..3];
  }

  lemma AfterInitramfs(codec: Codec, p: Parts, x: Expansion, zeros: nat, allowFsImage: bool)
    requires Ready(codec, p, x) && KernelOk(x.kernel)
    ensures var three := ParseFrom(codec, Assembled(p, zeros), |Before(p, 3)|, Taken(p, x, zeros, 3), allowFsImage);
            && (InitramfsOk(x, allowFsImage) ==>
                  three == ParseFrom(codec, Assembled(p, zeros), |Before(p, 4)|, Taken(p, x, zeros, 4), allowFsImage))
            && (!InitramfsOk(x, allowFsImage) ==> Refused(three))
  {
    hide Scan;
    hide ParseFrom;
    hide Line;
    hide Assembled;
    hide After;
    hide TextOk;
    hide SelfDelimiting;
    hide PrefixOk;
    hide Payloads;
    hide Roles;
    hide KernelRecord;
    hide DtbRecord;
    hide LineRecord;
    hide InitramfsOk;
    Offsets(p);
    InitramfsNonempty(codec, p, x);
    var s := Taken(p, x, zeros, 3);
    var at := |Before(p, 3)|;
    ScanOfInitramfs(codec, p, x, After(p, 4, zeros), at, allowFsImage);
    ParsePart(codec, p, 3, zeros, s, allowFsImage);
    if InitramfsOk(x, allowFsImage) {
      assert s.records + [InitramfsRecord(p, x, at)] == PartRecords(p, x, zeros)[..4];
    } else {
      var r := Scan(codec, p.initramfs + After(p, 4, zeros), at, allowFsImage);
      var three := ParseFrom(codec, Assembled(p, zeros), at, s, allowFsImage);
      if r.Some? && three.Some? {
        ParseKeeps(codec, Assembled(p, zeros), |Before(p, 4)|, Extended(s, r.value), allowFsImage);
        PayloadsTaken(p, x, zeros);
        WrongRole(s.records, r.value.record, three.value.records);
      }
    }
  }

  lemma InitramfsNonempty(codec: Codec, p: Parts, x: Expansion)
    requires Ready(codec, p, x)
    ensures p.initramfs != []
  {
    hide SelfDelimiting;
  }

  lemma PayloadsTaken(p: Parts, x: Expansion, zeros: nat)
    requires IsImage(x.kernel)
    ensures var r := PartRecords(p, x, zeros);
            Payloads(r[..3]) == [r[1], r[2]] && Payloads(r) == [r[1], r[2], r[3]]
  {
    hide Line;
    hide IsImage;
    var r := PartRecords(p, x, zeros);
    PayloadsOfFive(r);
  }

  lemma PayloadsOfFive(r: seq<Record>)
    requires |r| == 5 && IsPayload(r[1]) && IsPayload(r[2]) && IsPayload(r[3]) && !IsPayload(r[0]) && !IsPayload(r[4])
    ensures Payloads(r[..3]) == [r[1], r[2]] && Payloads(r) == [r[1], r[2], r[3]]
  {
    hide IsPayload;
    var a, b, c, d := r[..1], r[..2], r[..3], r[..4];
    assert a[..0] == [] && b[..1] == a && c[..2] == b && d[..3] == c;
    assert Payloads(a) == [];
    assert Payloads(b) == [r[1]];
    assert Payloads(c) == [r[1], r[2]];
    assert Payloads(d) == [r[1], r[2], r[3]];
  }

  lemma AtEnd(codec: Codec, p: Parts, x: Expansion, zeros: nat, allowFsImage: bool)
    requires zeros >= 4 && IsImage(x.kernel)
    ensures ParseFrom(codec, Assembled(p, zeros), |Before(p, 4)|, Taken(p, x, zeros, 4), allowFsImage)
            == Some(Taken(p, x, zeros, 5))
  {
    hide Scan;
    hide Line;
    hide Assembled;
    hide IsImage;
    hide KernelRecord;
    hide Before;
    Offsets(p);
    Cut(p, 4, zeros);
    var data := Assembled(p, zeros);
    var at := |Before(p, 4)|;
    assert data[at..] == Zeros(zeros);
    ScanOfZeros(codec, zeros, at, allowFsImage);
    assert Taken(p, x, zeros, 4).records + [Record(Terminator, Zero, at, zeros, None, 0)]
           == PartRecords(p, x, zeros)[..5];
  }

  /** The scan of an assembled object: exactly its parts if they are within the limits, a refusal
      otherwise. */
  lemma WholeScan(codec: Codec, p: Parts, x: Expansion, zeros: nat, allowFsImage: bool)
    requires Ready(codec, p, x) && zeros >= 4
    ensures Within(p, x, allowFsImage) ==>
              Whole(codec, p, zeros, allowFsImage)
              == Some(Stream(PartRecords(p, x, zeros), map[BOOTARGS := p.bootargs]))
    ensures !Within(p, x, allowFsImage) ==> Refused(Whole(codec, p, zeros, allowFsImage))
  {
    hide ParseFrom;
    hide Assembled;
    hide Before;
    hide PartRecords;
    hide InitramfsOk;
    hide SelfDelimiting;
    hide Payloads;
    AfterLine(codec, p, zeros, allowFsImage);
    AfterKernel(codec, p, x, zeros, allowFsImage);
    if KernelOk(x.kernel) {
      AfterDtb(codec, p, x, zeros, allowFsImage);
      AfterInitramfs(codec, p, x, zeros, allowFsImage);
      AtEnd(codec, p, x, zeros, allowFsImage);
      FiveParts(p, x, zeros);
    }
  }

  lemma FiveParts(p: Parts, x: Expansion, zeros: nat)
    requires IsImage(x.kernel)
    ensures |PartRecords(p, x, zeros)| == 5 && PartRecords(p, x, zeros)[..5] == PartRecords(p, x, zeros)
  {
    hide IsImage;
    hide Line;
  }

  // --------------------------------------------------------------------------
  // The builder's objects and strict verification

  /** What the request names are the very parts; in strict mode it names them all. */
  predicate Names(q: Request, p: Parts) {
    && (if Kernel in q.expected then q.expected[Kernel] == p.kernel else !q.strict)
    && (if Dtb in q.expected then q.expected[Dtb] == p.dtb else !q.strict)
    && (if Initramfs in q.expected then q.expected[Initramfs] == p.initramfs else !q.strict)
    && (if q.bootargs.Some? then q.bootargs.value == p.bootargs else !q.strict)
  }

  /** Each record holds its part's bytes. */
  lemma PartBytes(p: Parts, x: Expansion, zeros: nat)
    requires IsImage(x.kernel)
    ensures var r := PartRecords(p, x, zeros);
            var image := Assembled(p, zeros);
            && BytesOf(r[1], image) == p.kernel && BytesOf(r[2], image) == p.dtb && BytesOf(r[3], image) == p.initramfs
  {
    hide PartRecords;
    hide Line;
    hide IsImage;
    hide Before;
    hide Assembled;
    RecordsAt(p, x, zeros);
    PartAt(p, 1, zeros);
    PartAt(p, 2, zeros);
    PartAt(p, 3, zeros);
  }

  lemma RecordsAt(p: Parts, x: Expansion, zeros: nat)
    requires IsImage(x.kernel)
    ensures var r := PartRecords(p, x, zeros);
            && |r| == 5
            && r[1].offset == |Before(p, 1)| && r[1].size == |p.kernel|
            && r[2].offset == |Before(p, 2)| && r[2].size == |p.dtb|
            && r[3].offset == |Before(p, 3)| && r[3].size == |p.initramfs|
  {
    hide Line;
    hide IsImage;
    hide ImageSize;
    hide Before;
    Offsets(p);
  }

  lemma PartAt(p: Parts, n: nat, zeros: nat)
    requires n <= 3
    ensures var at := |Before(p, n)|;
            at + |Part(p, n)| <= |Assembled(p, zeros)| && Assembled(p, zeros)[at..at + |Part(p, n)|] == Part(p, n)
  {
    hide Line;
    hide Part;
    hide Assembled;
    Cut(p, n, zeros);
    Slice(Before(p, n), Part(p, n), After(p, n + 1, zeros));
  }

  lemma Slice(a: seq<Byte>, b: seq<Byte>, c: seq<Byte>)
    ensures (a + (b + c))[|a|..|a| + |b|] == b
  {
  }

  /** Verification, strict or not, accepts an assembled object exactly when the parts are within the
      limits and are the ones asked for; it then recovers them all. */
  lemma BuiltAccepted(codec: Codec, p: Parts, x: Expansion, zeros: nat, q: Request)
    requires Ready(codec, p, x) && Fills(p, zeros) && q.m1n1 == p.m1n1
    ensures Verdict(codec, Assembled(p, zeros), q).Some?
            <==> |Assembled(p, zeros)| <= q.maxSize && Within(p, x, q.allowFsImage) && Names(q, p)
    ensures Verdict(codec, Assembled(p, zeros), q).Some? ==>
            Verdict(codec, Assembled(p, zeros), q).value
            == Report(PartRecords(p, x, zeros), map[BOOTARGS := p.bootargs],
                      ImageSize(x.kernel) + |p.dtb| + 0x1_8000 + |x.initramfs|)
  {
    hide ParseFrom;
    hide Line;
    hide SelfDelimiting;
    hide Payloads;
    hide BytesOf;
    hide InitramfsOk;
    hide Reserve;
    hide Zeros;
    var image := Assembled(p, zeros);
    WholeScan(codec, p, x, zeros, q.allowFsImage);
    if Within(p, x, q.allowFsImage) {
      var r := PartRecords(p, x, zeros);
      PayloadsTaken(p, x, zeros);
      PartBytes(p, x, zeros);
      ReserveOfThree(r[1], r[2], r[3]);
      StreamOfParts(p, x, zeros, q);
    }
  }

  lemma StreamOfParts(p: Parts, x: Expansion, zeros: nat, q: Request)
    requires KernelOk(x.kernel) && zeros >= 4
    ensures StreamOk(Stream(PartRecords(p, x, zeros), map[BOOTARGS := p.bootargs]), Assembled(p, zeros), q) <==>
            Names(q, p)
  {
    hide Line;
    hide Assembled;
    hide BytesOf;
    hide Payloads;
    hide IsImage;
    var r := PartRecords(p, x, zeros);
    var image := Assembled(p, zeros);
    PayloadsTaken(p, x, zeros);
    PartBytes(p, x, zeros);
    var payloads := Payloads(r);
    assert Roles(payloads) == ORDER;
    assert (forall i :: 0 <= i < |payloads| ==> Matches(payloads[i], image, q))
      <==> Matches(r[1], image, q) && Matches(r[2], image, q) && Matches(r[3], image, q) by {
      assert payloads[0] == r[1] && payloads[1] == r[2] && payloads[2] == r[3];
    }
  }

  /** The builder's inputs, and what its members expand to: an Image it compressed itself expands to
      that Image, a wrapped blob is held as it is. */
  ghost predicate Expands(codec: Codec, i: Inputs, x: Expansion) {
    && x.wrapped == i.wrapped
    && (if IsMember(i.kernel) then SelfDelimiting(codec, i.kernel, x.kernel) else x.kernel == i.kernel)
    && (if i.wrapped then x.initramfs == i.initramfs else SelfDelimiting(codec, i.initramfs, x.initramfs))
  }

  lemma BuilderReady(codec: Codec, compress: seq<Byte> -> seq<Byte>, i: Inputs, x: Expansion)
    requires InputsOk(i) && Compresses(codec, compress) && Expands(codec, i, x)
    ensures Ready(codec, PartsOf(compress, i), x)
  {
    hide SelfDelimiting;
    hide PrefixOk;
    hide TextOk;
    hide DtbOk;
    hide Wrap;
    hide ImageSize;
    if !IsMember(i.kernel) {
      assert Starts(compress(i.kernel), GZIP_MAGIC) && SelfDelimiting(codec, compress(i.kernel), i.kernel);
    }
  }

  /** Building and then verifying with the same parts succeeds exactly within the limits, and gives
      back the boot arguments. */
  lemma BuildThenVerify(codec: Codec, compress: seq<Byte> -> seq<Byte>, i: Inputs, x: Expansion, zeros: nat,
                        allowFsImage: bool, maxSize: nat)
    requires InputsOk(i) && Compresses(codec, compress) && Expands(codec, i, x) && Fills(PartsOf(compress, i), zeros)
    ensures var p := PartsOf(compress, i);
            var image := Assembled(p, zeros);
            var q := Request(i.m1n1, map[Kernel := p.kernel, Dtb := p.dtb, Initramfs := p.initramfs],
                             Some(i.bootargs), true, allowFsImage, maxSize);
            && (Verdict(codec, image, q).Some? <==> |image| <= maxSize && Within(p, x, allowFsImage))
            && (Verdict(codec, image, q).Some? ==>
                Verdict(codec, image, q).value.variables == map[BOOTARGS := i.bootargs])
  {
    hide Ready;
    hide Assembled;
    hide Verdict;
    hide Expands;
    hide Compresses;
    hide Within;
    hide Fills;
    hide PartRecords;
    var p := PartsOf(compress, i);
    BuilderReady(codec, compress, i, x);
    BuiltAccepted(codec, p, x, zeros,
      Request(i.m1n1, map[Kernel := p.kernel, Dtb := p.dtb, Initramfs := p.initramfs], Some(i.bootargs), true,
              allowFsImage, maxSize));
  }
}
