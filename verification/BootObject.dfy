/** The raw m1n1 boot object: an m1n1 prefix followed by a stream of self-delimiting payloads.

    This module is the verifier: how it scans the stream and what it demands of the whole. Gzip and
    XZ decoding are a parameter, a codec that says for each input what a decoder would report. */
module BootObject {
  import opened Wrappers
  import opened Bytes

  const RAW_ENTRY_POINT := 0x800
  const ALIGNMENT := 0x4000
  const MAX_COMPRESSED_EXPANSION := 0x4000_0000
  const MAX_KERNEL_RESERVE := 0x2000_0000
  const MAX_INITRAMFS_EXPANDED := 0x800_0000
  const MAX_DTB_SIZE := 0x20_0000
  const DTB_GROWTH_RESERVE := 0x1_8000
  const LOGO_BYTES := 327680                   // 4 * (256 * 256 + 128 * 128)

  const GZIP_MAGIC: seq<Byte> := [0x1f, 0x8b]
  const XZ_MAGIC: seq<Byte> := [0xfd, 0x37, 0x7a, 0x58, 0x5a, 0x00]
  const FDT_MAGIC: seq<Byte> := [0xd0, 0x0d, 0xfe, 0xed]
  const KERNEL_MAGIC: seq<Byte> := [0x41, 0x52, 0x4d, 0x64]
  const EXT_SB_MAGIC: seq<Byte> := [0x53, 0xef]
  const CPIO_NEWC: seq<Byte> := [0x30, 0x37, 0x30, 0x37, 0x30, 0x31]
  const CPIO_CRC: seq<Byte> := [0x30, 0x37, 0x30, 0x37, 0x30, 0x32]
  const SIGNATURE_MAGIC: seq<Byte> := [0x6d, 0x31, 0x6e, 0x31, 0x5f, 0x73, 0x69, 0x67]
  const INITRAMFS_MAGIC: seq<Byte> := [0x6d, 0x31, 0x6e, 0x31, 0x5f, 0x69, 0x6e, 0x69, 0x74, 0x72, 0x61, 0x6d, 0x66,
                                       0x73]
  const LOGO_MAGIC: seq<Byte> := [0x6d, 0x31, 0x6e, 0x31, 0x5f, 0x6c, 0x6f, 0x67, 0x6f, 0x5f, 0x32, 0x35, 0x36, 0x31,
                                  0x32, 0x38]
  const TERMINATOR: seq<Byte> := [0, 0, 0, 0]
  const BOOTARGS: seq<Byte> := [0x63, 0x68, 0x6f, 0x73, 0x65, 0x6e, 0x2e, 0x62, 0x6f, 0x6f, 0x74, 0x61, 0x72, 0x67,
                                0x73]  // chosen.bootargs
  const EQUALS: Byte := 0x3d
  const NEWLINE: Byte := 0x0a

  function Starts(s: seq<Byte>, magic: seq<Byte>): bool {
    magic <= s
  }

  predicate IsCpio(s: seq<Byte>) {
    Starts(s, CPIO_NEWC) || Starts(s, CPIO_CRC)
  }

  /** A big-endian 32-bit number at the given offset. */
  function Be32(s: seq<Byte>, at: nat): nat
    requires at + 4 <= |s|
  {
    var a: int, b: int, c: int, d: int := s[at], s[at + 1], s[at + 2], s[at + 3];
    a * 0x100_0000 + b * 0x1_0000 + c * 0x100 + d
  }

  /** It is the little-endian number of the bytes in reverse order. */
  lemma Be32Reversed(s: seq<Byte>, at: nat)
    requires at + 4 <= |s|
    ensures Be32(s, at) == FromLe([s[at + 3], s[at + 2], s[at + 1], s[at]])
  {
    hide FromLe;
    FromLe4(s[at + 3], s[at + 2], s[at + 1], s[at]);
  }

  /** The four bytes of a number, most significant first. */
  function Be(n: nat): (s: seq<Byte>)
    ensures |s| == 4
  {
    var t := Le(n, 4);
    [t[3], t[2], t[1], t[0]]
  }

  /** A number written big-endian reads back. */
  lemma Be32Reads(s: seq<Byte>, at: nat, n: nat)
    requires at + 4 <= |s| && n < 0x1_0000_0000 && s[at..at + 4] == Be(n)
    ensures Be32(s, at) == n
  {
    hide FromLe;
    hide Le;
    var t := Le(n, 4);
    assert s[at] == s[at..at + 4][0] && s[at + 1] == s[at..at + 4][1];
    assert s[at + 2] == s[at..at + 4][2] && s[at + 3] == s[at..at + 4][3];
    assert t == [t[0], t[1], t[2], t[3]];
    Be32Reversed(s, at);
    Limits();
    LeRoundTrip(n, 4);
  }

  // --------------------------------------------------------------------------
  // Members

  datatype Encoding = Gzip | Xz

  /** What a streaming decoder with no output limit reports for an input: an error, or what it
      expanded, whether it saw the end of a member, and how many input bytes it left over. The
      source's decoders stop one byte past the limit; either way the expansion is refused. */
  datatype Decoded = DecodeError | Decoded(expanded: seq<Byte>, eof: bool, unused: nat)

  type Codec = (Encoding, seq<Byte>) -> Decoded

  datatype Member = Member(expanded: seq<Byte>, consumed: nat)

  function Decompress(codec: Codec, e: Encoding, data: seq<Byte>): (r: Option<Member>)
    ensures r.Some? ==> 0 < r.value.consumed <= |data|
  {
    match codec(e, data)
    case DecodeError => None
    case Decoded(expanded, eof, unused) =>
      if |expanded| > MAX_COMPRESSED_EXPANSION || !eof || |data| <= unused then None
      else Some(Member(expanded, |data| - unused))
  }

  datatype Role = Kernel | Dtb | Initramfs | Terminator | Signature | Logo | Variable

  datatype Content = Content(role: Role, reserve: nat)

  predicate IsImage(data: seq<Byte>) {
    |data| >= 0x3c && data[0x38..0x3c] == KERNEL_MAGIC
  }

  function ImageSize(data: seq<Byte>): nat
    requires |data| >= 0x18
  {
    FromLe(data[0x10..0x18])
  }

  /** What an expanded member is; None if it is nothing acceptable. */
  function Classify(data: seq<Byte>): (r: Option<Content>)
    ensures r.Some? ==> r.value.role in {Kernel, Dtb, Initramfs}
  {
    if IsImage(data) then
      var size := ImageSize(data);
      if size == 0 || |data| > size || size > MAX_KERNEL_RESERVE then None else Some(Content(Kernel, size))
    else if Starts(data, FDT_MAGIC) then
      if |data| < 8 || Be32(data, 4) != |data| || |data| > MAX_DTB_SIZE then None
      else Some(Content(Dtb, |data| + DTB_GROWTH_RESERVE))
    else if IsCpio(data) then
      if |data| > MAX_INITRAMFS_EXPANDED then None else Some(Content(Initramfs, |data|))
    else None
  }

  /** First index of b from lo on, below hi. */
  function Find(s: seq<Byte>, b: Byte, lo: nat, hi: nat): (r: Option<nat>)
    ensures r.Some? ==> lo <= r.value < hi && r.value < |s| && s[r.value] == b
    ensures forall k :: lo <= k < |s| && k < (if r.Some? then r.value else hi) ==> s[k] != b
    decreases hi - lo
  {
    if lo >= hi || lo >= |s| then None
    else if s[lo] == b then Some(lo)
    else Find(s, b, lo + 1, hi)
  }

  predicate IsAscii(s: seq<Byte>) {
    forall i :: 0 <= i < |s| ==> s[i] < 128
  }

  datatype VariableResult = NoVariable | BadVariable | GoodVariable(name: seq<Byte>, value: seq<Byte>, size: nat)

  /** A line `name=value`, with at most 64 bytes of name and 1024 of value. */
  function ParseVariable(r: seq<Byte>): (v: VariableResult)
    ensures v.GoodVariable? ==> 0 < v.size <= |r|
  {
    var nameEnd := Find(r, EQUALS, 0, 65);
    if nameEnd.None? then NoVariable
    else
      var n := nameEnd.value;
      var lineEnd := Find(r, NEWLINE, n + 1, n + 1026);
      if lineEnd.None? then BadVariable
      else
        var l := lineEnd.value;
        if !IsAscii(r[..n]) || !IsAscii(r[n + 1..l]) || n == 0 then BadVariable
        else GoodVariable(r[..n], r[n + 1..l], l + 1)
  }

  // --------------------------------------------------------------------------
  // The scan

  datatype Form = Zero | Compressed(encoding: Encoding) | Raw | Wrapper | SignatureBlock | Rgba | Named(name: seq<Byte>)

  datatype Record = Record(role: Role, form: Form, offset: nat, size: nat, expandedSize: Option<nat>, reserve: nat)

  type Variables = map<seq<Byte>, seq<Byte>>

  /** One payload: its record, and its value if it is a variable. */
  datatype Payload = Payload(record: Record, value: Option<seq<Byte>>)

  function ScanCompressed(codec: Codec, e: Encoding, r: seq<Byte>, offset: nat): Option<Payload> {
    var m :- Decompress(codec, e, r);
    var c :- Classify(m.expanded);
    Some(Payload(Record(c.role, Compressed(e), offset, m.consumed, Some(|m.expanded|), c.reserve), None))
  }

  function ScanDtb(r: seq<Byte>, offset: nat): Option<Payload> {
    if |r| < 8 then None
    else
      var total := Be32(r, 4);
      if total < 40 || total > |r| || total > MAX_DTB_SIZE then None
      else Some(Payload(Record(Dtb, Raw, offset, total, Some(total), total + DTB_GROWTH_RESERVE), None))
  }

  predicate WrappedOk(payload: seq<Byte>, allowFsImage: bool) {
    IsCpio(payload) || (allowFsImage && |payload| > 0x440 && payload[0x438..0x43a] == EXT_SB_MAGIC)
  }

  function ScanWrapper(r: seq<Byte>, offset: nat, allowFsImage: bool): Option<Payload>
    requires Starts(r, INITRAMFS_MAGIC)
  {
    var header := |INITRAMFS_MAGIC| + 4;
    if |r| < header then None
    else
      var size := FromLe(r[|INITRAMFS_MAGIC|..header]);
      if header + size > |r| || size > MAX_INITRAMFS_EXPANDED then None
      else if !WrappedOk(r[header..header + size], allowFsImage) then None
      else Some(Payload(Record(Initramfs, Wrapper, offset, header + size, Some(size), size), None))
  }

  function ScanSignature(r: seq<Byte>, offset: nat): Option<Payload>
    requires Starts(r, SIGNATURE_MAGIC)
  {
    if |r| < 12 then None
    else
      var total := FromLe(r[8..12]);
      if total < 12 || total > |r| then None
      else Some(Payload(Record(Signature, SignatureBlock, offset, total, None, 0), None))
  }

  function ScanLogo(r: seq<Byte>, offset: nat): Option<Payload> {
    var total := |LOGO_MAGIC| + LOGO_BYTES;
    if total > |r| then None else Some(Payload(Record(Logo, Rgba, offset, total, None, 0), None))
  }

  function ScanVariable(r: seq<Byte>, offset: nat): Option<Payload> {
    match ParseVariable(r)
    case GoodVariable(name, value, size) =>
      Some(Payload(Record(Variable, Named(name), offset, size, None, 0), Some(value)))
    case _ => None
  }

  /** The payload at the head of the remaining bytes r, which start at `offset`. */
  function Scan(codec: Codec, r: seq<Byte>, offset: nat, allowFsImage: bool): Option<Payload> {
    if Starts(r, TERMINATOR) then
      if AllZero(r) then Some(Payload(Record(Terminator, Zero, offset, |r|, None, 0), None)) else None
    else if Starts(r, GZIP_MAGIC) then ScanCompressed(codec, Gzip, r, offset)
    else if Starts(r, XZ_MAGIC) then ScanCompressed(codec, Xz, r, offset)
    else if Starts(r, FDT_MAGIC) then ScanDtb(r, offset)
    else if Starts(r, INITRAMFS_MAGIC) then ScanWrapper(r, offset, allowFsImage)
    else if Starts(r, SIGNATURE_MAGIC) then ScanSignature(r, offset)
    else if Starts(r, LOGO_MAGIC) then ScanLogo(r, offset)
    else ScanVariable(r, offset)
  }

  /** Every payload starts where it should and takes at least one byte and no more than there are. */
  lemma ScanProgress(codec: Codec, r: seq<Byte>, offset: nat, allowFsImage: bool)
    requires r != [] && Scan(codec, r, offset, allowFsImage).Some?
    ensures var p := Scan(codec, r, offset, allowFsImage).value;
            && p.record.offset == offset && 0 < p.record.size <= |r|
            && (p.record.role == Terminator ==> p.record.size == |r| >= 4 && AllZero(r))
            && (p.value.Some? <==> p.record.role == Variable) && (p.value.Some? ==> p.record.form.Named?)
  {
    hide FromLe;
    hide Classify;
    hide ParseVariable;
    hide WrappedOk;
  }

  datatype Stream = Stream(records: seq<Record>, variables: Variables)

  function Extended(s: Stream, p: Payload): Stream
    requires p.value.Some? ==> p.record.form.Named?
  {
    Stream(s.records + [p.record],
           if p.value.Some? then s.variables[p.record.form.name := p.value.value] else s.variables)
  }

  /** The rest of the scan, with what has been collected so far. */
  function ParseFrom(codec: Codec, data: seq<Byte>, offset: nat, s: Stream, allowFsImage: bool): Option<Stream>
    decreases |data| - offset
  {
    if offset >= |data| then (if offset == |data| then Some(s) else None)
    else
      var p :- Scan(codec, data[offset..], offset, allowFsImage);
      ScanProgress(codec, data[offset..], offset, allowFsImage);
      if p.value.Some? && p.record.form.name in s.variables then None
      else
        ParseFrom(codec, data, offset + p.record.size, Extended(s, p), allowFsImage)
  }

  method ParsePayloadStream(codec: Codec, data: seq<Byte>, start: nat, allowFsImage: bool) returns (r: Option<Stream>)
    ensures r == ParseFrom(codec, data, start, Stream([], map[]), allowFsImage)
  {
    hide Scan;
    var records: seq<Record> := [];
    var variables: Variables := map[];
    var offset := start;
    while offset < |data|
      invariant ParseFrom(codec, data, offset, Stream(records, variables), allowFsImage)
             == ParseFrom(codec, data, start, Stream([], map[]), allowFsImage)
      decreases |data| - offset
    {
      var remaining := data[offset..];
      var p := Scan(codec, remaining, offset, allowFsImage);
      if p.None? { return None; }
      ScanProgress(codec, remaining, offset, allowFsImage);
      if p.value.value.Some? {
        var name := p.value.record.form.name;
        if name in variables { return None; }
        variables := variables[name := p.value.value.value];
      }
      records := records + [p.value.record];
      offset := offset + p.value.record.size;
    }
    if offset != |data| { return None; }
    return Some(Stream(records, variables));
  }

  // --------------------------------------------------------------------------
  // Tiling

  /** The records cover lo..hi without gap or overlap, each with at least one byte. */
  ghost predicate Tiles(records: seq<Record>, lo: nat, hi: nat) {
    if records == [] then lo == hi
    else
      var last := records[|records| - 1];
      last.size > 0 && last.offset + last.size == hi && Tiles(records[..|records| - 1], lo, last.offset)
  }

  /** A terminator, if there is one, is the last record, at least four bytes and all zero. */
  ghost predicate EndsWell(records: seq<Record>, data: seq<Byte>) {
    forall i :: 0 <= i < |records| && records[i].role == Terminator ==>
      var t := records[i];
      && i == |records| - 1 && t.size >= 4 && t.offset + t.size == |data|
      && AllZero(data[t.offset..])
  }

  lemma {:induction false} ParseTiles(codec: Codec, data: seq<Byte>, start: nat, offset: nat, s: Stream,
                                      allowFsImage: bool)
    requires start <= offset <= |data| && Tiles(s.records, start, offset) && EndsWell(s.records, data)
    requires ParseFrom(codec, data, offset, s, allowFsImage).Some?
    ensures var r := ParseFrom(codec, data, offset, s, allowFsImage).value;
            Tiles(r.records, start, |data|) && EndsWell(r.records, data)
    decreases |data| - offset
  {
    hide Scan;
    if offset < |data| {
      var p := Scan(codec, data[offset..], offset, allowFsImage).value;
      ScanProgress(codec, data[offset..], offset, allowFsImage);
      var s' := Extended(s, p);
      assert s'.records[..|s'.records| - 1] == s.records;
      NoTerminatorBefore(s.records, data, start, offset);
      ParseTiles(codec, data, start, offset + p.record.size, s', allowFsImage);
    }
  }

  /** While bytes remain, no terminator has been recorded. */
  lemma NoTerminatorBefore(records: seq<Record>, data: seq<Byte>, lo: nat, hi: nat)
    requires Tiles(records, lo, hi) && hi < |data| && EndsWell(records, data)
    ensures forall i :: 0 <= i < |records| ==> records[i].role != Terminator
  {
  }

  // --------------------------------------------------------------------------
  // Variables

  function Line(name: seq<Byte>, value: seq<Byte>): seq<Byte> {
    name + [EQUALS] + value + [NEWLINE]
  }

  lemma VariableIsLine(r: seq<Byte>)
    requires ParseVariable(r).GoodVariable?
    ensures var v := ParseVariable(r); 0 < v.size <= |r| && r[..v.size] == Line(v.name, v.value)
  {
  }

  /** The record's bytes are the line that the variable was read from. */
  ghost predicate LineAt(r: Record, variables: Variables, data: seq<Byte>) {
    && r.form.Named? && r.form.name in variables && r.offset + r.size <= |data|
    && data[r.offset..r.offset + r.size] == Line(r.form.name, variables[r.form.name])
  }

  /** The variables are exactly those recorded, each on one line. */
  ghost predicate Recorded(s: Stream, data: seq<Byte>) {
    && (forall i :: 0 <= i < |s.records| && s.records[i].role == Variable ==> LineAt(s.records[i], s.variables, data))
    && (forall name :: name in s.variables ==>
          exists i :: 0 <= i < |s.records| && s.records[i].role == Variable && s.records[i].form == Named(name))
    && (forall i, j :: 0 <= i < j < |s.records| && s.records[i].role == s.records[j].role == Variable
          ==> s.records[i].form != s.records[j].form)
  }

  lemma LineKept(r: Record, s: Stream, p: Payload, data: seq<Byte>)
    requires LineAt(r, s.variables, data)
    requires p.value.Some? ==> p.record.form.Named? && p.record.form.name !in s.variables
    ensures LineAt(r, Extended(s, p).variables, data) && (p.value.Some? ==> r.form != p.record.form)
  {
    hide Line;
  }

  lemma LineNew(s: Stream, p: Payload, data: seq<Byte>)
    requires p.value.Some? && p.record.form.Named? && LineAt(p.record, map[p.record.form.name := p.value.value], data)
    ensures LineAt(p.record, Extended(s, p).variables, data)
  {
    hide Line;
  }

  lemma RecordedStep(s: Stream, p: Payload, data: seq<Byte>)
    requires Recorded(s, data) && (p.value.Some? <==> p.record.role == Variable)
             && (p.value.Some? ==> p.record.form.Named?)
    requires p.value.Some? ==>
               && p.record.form.name !in s.variables
               && LineAt(p.record, map[p.record.form.name := p.value.value], data)
    ensures Recorded(Extended(s, p), data)
  {
    hide LineAt;
    var t := Extended(s, p);
    forall i | 0 <= i < |t.records| && t.records[i].role == Variable
      ensures LineAt(t.records[i], t.variables, data)
    {
      if i < |s.records| {
        assert LineAt(s.records[i], s.variables, data);
        LineKept(s.records[i], s, p, data);
      } else {
        LineNew(s, p, data);
      }
    }
    forall i, j | 0 <= i < j < |t.records| && t.records[i].role == t.records[j].role == Variable
      ensures t.records[i].form != t.records[j].form
    {
      if j == |s.records| {
        LineKept(s.records[i], s, p, data);
      }
    }
    forall name | name in t.variables
      ensures exists i :: 0 <= i < |t.records| && t.records[i].role == Variable && t.records[i].form == Named(name)
    {
      if p.value.Some? && name == p.record.form.name {
        assert t.records[|s.records|] == p.record;
      } else {
        var i :| 0 <= i < |s.records| && s.records[i].role == Variable && s.records[i].form == Named(name);
        assert t.records[i] == s.records[i];
      }
    }
  }

  lemma ScanLine(codec: Codec, r: seq<Byte>, offset: nat, allowFsImage: bool)
    requires r != [] && Scan(codec, r, offset, allowFsImage).Some?
    requires Scan(codec, r, offset, allowFsImage).value.value.Some?
    ensures var p := Scan(codec, r, offset, allowFsImage).value;
            p.record.form.Named? && p.record.size <= |r|
                && r[..p.record.size] == Line(p.record.form.name, p.value.value)
  {
    hide FromLe;
    hide Classify;
    hide WrappedOk;
    hide ParseVariable;
    hide Line;
    assert Scan(codec, r, offset, allowFsImage) == ScanVariable(r, offset);
    VariableIsLine(r);
  }

  lemma {:induction false} ParseRecords(codec: Codec, data: seq<Byte>, offset: nat, s: Stream, allowFsImage: bool)
    requires Recorded(s, data)
    requires ParseFrom(codec, data, offset, s, allowFsImage).Some?
    ensures Recorded(ParseFrom(codec, data, offset, s, allowFsImage).value, data)
    decreases |data| - offset
  {
    hide Scan;
    hide Recorded;
    hide Line;
    if offset < |data| {
      var r := data[offset..];
      var p := Scan(codec, r, offset, allowFsImage).value;
      ScanProgress(codec, r, offset, allowFsImage);
      if p.value.Some? {
        ScanLine(codec, r, offset, allowFsImage);
        assert data[offset..offset + p.record.size] == r[..p.record.size];
      }
      RecordedStep(s, p, data);
      ParseRecords(codec, data, offset + p.record.size, Extended(s, p), allowFsImage);
    }
  }

  /** What has been recorded is kept. */
  lemma {:induction false} ParseKeeps(codec: Codec, data: seq<Byte>, offset: nat, s: Stream, allowFsImage: bool)
    requires ParseFrom(codec, data, offset, s, allowFsImage).Some?
    ensures s.records <= ParseFrom(codec, data, offset, s, allowFsImage).value.records
    decreases |data| - offset
  {
    hide Scan;
    if offset < |data| {
      var r := data[offset..];
      var p := Scan(codec, r, offset, allowFsImage).value;
      ScanProgress(codec, r, offset, allowFsImage);
      ParseKeeps(codec, data, offset + p.record.size, Extended(s, p), allowFsImage);
    }
  }
}
