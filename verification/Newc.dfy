/** SVR4 newc archives: the deterministic writer and the strict parser.

    The writer pads each name and each datum relative to its own length; the parser aligns absolute
    offsets. They agree because every entry starts on a multiple of four. */
module Newc {
  import opened Wrappers
  import opened Bytes
  import opened Seqs

  const MAGIC: seq<Byte> := [0x30, 0x37, 0x30, 0x37, 0x30, 0x31]                         // 070701
  const TRAILER: seq<Byte> := [0x54, 0x52, 0x41, 0x49, 0x4c, 0x45, 0x52, 0x21, 0x21, 0x21] // TRAILER!!!
  const WORD := 0x1_0000_0000
  const FIELDS := 13
  const HEADER := 110

  lemma Spelled()
    ensures MAGIC == Ascii("070701") && TRAILER == Ascii("TRAILER!!!")
  {
  }

  type Name = seq<Byte>

  /** What the writer knows of a file. */
  datatype Entry = Entry(name: Name, mode: nat, nlink: nat, data: seq<Byte>, rmajor: nat, rminor: nat)

  // --------------------------------------------------------------------------
  // Hexadecimal fields

  function HexChar(d: nat): Byte
    requires d < 16
  {
    if d < 10 then 0x30 + d else 0x61 + d - 10
  }

  /** The value of a hex digit, in either case. */
  function HexDigit(b: Byte): Option<nat> {
    if 0x30 <= b <= 0x39 then Some(b - 0x30)
    else if 0x61 <= b <= 0x66 then Some(b - 0x61 + 10)
    else if 0x41 <= b <= 0x46 then Some(b - 0x41 + 10)
    else None
  }

  /** The low w hex digits of v, most significant first. */
  function Hex(v: nat, w: nat): (s: seq<Byte>)
    ensures |s| == w
    decreases w
  {
    if w == 0 then [] else Hex(v / 16, w - 1) + [HexChar(v % 16)]
  }

  function HexWidth(v: nat): nat {
    if v < 16 then 1 else 1 + HexWidth(v / 16)
  }

  /** Formatting with 08x: eight digits, or more if the number needs them. */
  function Hex08(v: nat): seq<Byte> {
    Hex(v, if HexWidth(v) < 8 then 8 else HexWidth(v))
  }

  // How Python's int reads a field in base 16: blanks around it, a sign, an 0x prefix and single
  // underscores between digits are all let through.

  const UNDERSCORE: Byte := 0x5f
  const MINUS: Byte := 0x2d
  const PLUS: Byte := 0x2b

  predicate IsBlank(b: Byte) {
    b == 0x20 || 9 <= b <= 13
  }

  function StripLeft(s: seq<Byte>): seq<Byte> {
    if s != [] && IsBlank(s[0]) then StripLeft(s[1..]) else s
  }

  function StripRight(s: seq<Byte>): seq<Byte> {
    if s != [] && IsBlank(s[|s| - 1]) then StripRight(s[..|s| - 1]) else s
  }

  function Unsigned(s: seq<Byte>): seq<Byte> {
    if s != [] && (s[0] == MINUS || s[0] == PLUS) then s[1..] else s
  }

  function Unprefixed(s: seq<Byte>): seq<Byte> {
    if |s| >= 2 && s[0] == 0x30 && (s[1] == 0x78 || s[1] == 0x58) then
      (if |s| >= 3 && s[2] == UNDERSCORE then s[3..] else s[2..])
    else s
  }

  function Pow16(w: nat): (r: nat)
    ensures r >= 1
  {
    if w == 0 then 1 else 16 * Pow16(w - 1)
  }

  /** Hex digits, at least one, with single underscores between them. */
  function Digits(s: seq<Byte>): Option<nat> {
    if s == [] then None
    else
      var n := |s| - 1;
      var lo :- HexDigit(s[n]);
      if n == 0 then Some(lo)
      else
        var hi :- Digits(if s[n - 1] == UNDERSCORE then s[..n - 1] else s[..n]);
        Some(16 * hi + lo)
  }

  /** A field as a number. */
  function ParseHex(s: seq<Byte>): Option<int> {
    var t := StripRight(StripLeft(s));
    var d :- Digits(Unprefixed(Unsigned(t)));
    var n: int := d;
    Some(if t != [] && t[0] == MINUS then -n else n)
  }

  /** Digits are written in lower case. */
  lemma HexSpelled(d: nat)
    requires d < 16
    ensures HexChar(d) == "0123456789abcdef"[d] as int
  {
  }

  /** The digits, in either case. */
  lemma DigitSpelled(b: Byte, d: nat)
    ensures HexDigit(b) == Some(d) <==>
              d < 16 && (b == "0123456789abcdef"[d] as int || b == "0123456789ABCDEF"[d] as int)
  {
  }

  /** What the conversion lets through around plain digits: blanks on both sides, a sign, and 0x in
      either case with or without an underscore after it. */
  lemma Lenient(left: seq<Byte>, sign: seq<Byte>, prefix: seq<Byte>, digits: seq<Byte>, right: seq<Byte>, n: nat)
    requires (forall i :: 0 <= i < |left| ==> IsBlank(left[i])) && (forall i :: 0 <= i < |right| ==> IsBlank(right[i]))
    requires sign in {[], [MINUS], [PLUS]} && prefix in {[0x30, 0x78], [0x30, 0x58], [0x30, 0x78, UNDERSCORE]}
    requires Digits(digits) == Some(n) && digits[0] != UNDERSCORE
    ensures ParseHex(left + (sign + prefix + digits) + right) == Some(if sign == [MINUS] then 0 - n else n)
  {
    hide Digits;
    hide StripLeft;
    hide StripRight;
    hide Unsigned;
    hide Unprefixed;
    var body := prefix + digits;
    var core := sign + prefix + digits;
    LastDigit(digits, n);
    Prefixed(prefix, digits);
    Associate(sign, prefix, digits);
    Signed(sign, body);
    assert core[|core| - 1] == digits[|digits| - 1];
    StripBoth(left, core, right);
  }

  lemma LastDigit(digits: seq<Byte>, n: nat)
    requires Digits(digits) == Some(n)
    ensures digits != [] && !IsBlank(digits[|digits| - 1])
  {
  }

  lemma Prefixed(prefix: seq<Byte>, digits: seq<Byte>)
    requires prefix in {[0x30, 0x78], [0x30, 0x58], [0x30, 0x78, UNDERSCORE]} && digits != [] && digits[0] != UNDERSCORE
    ensures Unprefixed(prefix + digits) == digits && (prefix + digits)[0] == 0x30
  {
    var s := prefix + digits;
    if |prefix| == 3 { assert s[3..] == digits; } else { assert s[2..] == digits && s[2] == digits[0]; }
  }

  lemma Signed(sign: seq<Byte>, body: seq<Byte>)
    requires sign in {[], [MINUS], [PLUS]} && body != [] && body[0] == 0x30
    ensures var core := sign + body;
            Unsigned(core) == body && !IsBlank(core[0]) && (core[0] == MINUS <==> sign == [MINUS])
  {
    var core := sign + body;
    if sign == [] { assert core == body; } else { assert core[1..] == body && core[0] == sign[0]; }
  }

  lemma StripBoth(left: seq<Byte>, core: seq<Byte>, right: seq<Byte>)
    requires (forall i :: 0 <= i < |left| ==> IsBlank(left[i])) && (forall i :: 0 <= i < |right| ==> IsBlank(right[i]))
    requires core != [] && !IsBlank(core[0]) && !IsBlank(core[|core| - 1])
    ensures StripRight(StripLeft(left + core + right)) == core
  {
    hide StripLeft;
    hide StripRight;
    Associate(left, core, right);
    assert (core + right)[0] == core[0];
    StripsLeft(left, core + right);
    StripsRight(core, right);
  }

  lemma {:induction false} StripsLeft(left: seq<Byte>, s: seq<Byte>)
    requires (forall i :: 0 <= i < |left| ==> IsBlank(left[i])) && s != [] && !IsBlank(s[0])
    ensures StripLeft(left + s) == s
  {
    if left == [] {
      assert left + s == s;
    } else {
      assert (left + s)[1..] == left[1..] + s;
      StripsLeft(left[1..], s);
    }
  }

  lemma {:induction false} StripsRight(s: seq<Byte>, right: seq<Byte>)
    requires (forall i :: 0 <= i < |right| ==> IsBlank(right[i])) && s != [] && !IsBlank(s[|s| - 1])
    ensures StripRight(s + right) == s
  {
    if right == [] {
      assert s + right == s;
    } else {
      var n := |right| - 1;
      assert (s + right)[..|s| + n] == s + right[..n];
      StripsRight(s, right[..n]);
    }
  }

  /** And one underscore before any digit but the first. */
  lemma Underscored(digits: seq<Byte>, n: nat, b: Byte, d: nat)
    requires Digits(digits) == Some(n) && HexDigit(b) == Some(d)
    ensures Digits(digits + [b]) == Some(16 * n + d) && Digits(digits + [UNDERSCORE, b]) == Some(16 * n + d)
    ensures Digits(digits + [UNDERSCORE]) == None && Digits(digits + [UNDERSCORE, UNDERSCORE, b]) == None
  {
    var last := digits[|digits| - 1];
    assert HexDigit(last).Some? && last != UNDERSCORE;
    assert (digits + [b])[..|digits|] == digits;
    assert (digits + [UNDERSCORE, b])[..|digits|] == digits;
    var t := digits + [UNDERSCORE, UNDERSCORE, b];
    assert t[..|digits| + 1] == digits + [UNDERSCORE];
  }

  lemma {:induction false} HexReads(v: nat, w: nat)
    requires v < Pow16(w) && w >= 1
    ensures Digits(Hex(v, w)) == Some(v)
    decreases w
  {
    var s := Hex(v, w);
    assert s[w - 1] == HexChar(v % 16) && s[..w - 1] == Hex(v / 16, w - 1);
    if w > 1 {
      HexReads(v / 16, w - 1);
      HexPlain(v, w, w - 2);
    }
  }

  /** Written digits are neither blanks nor signs nor anything else but digits. */
  lemma {:induction false} HexPlain(v: nat, w: nat, i: nat)
    requires i < w
    ensures HexDigit(Hex(v, w)[i]).Some? && Hex(v, w)[i] != UNDERSCORE && !IsBlank(Hex(v, w)[i])
    decreases w
  {
    if i < w - 1 { HexPlain(v / 16, w - 1, i); }
  }

  lemma HexParses(v: nat, w: nat)
    requires v < Pow16(w) && w >= 2
    ensures ParseHex(Hex(v, w)) == Some(v)
  {
    hide Digits;
    HexReads(v, w);
    HexPlain(v, w, 0);
    HexPlain(v, w, 1);
    HexPlain(v, w, w - 1);
  }

  lemma {:induction false} WidthBound(v: nat, w: nat)
    requires w >= 1
    ensures HexWidth(v) <= w <==> v < Pow16(w)
    decreases w
  {
    if w > 1 {
      if v >= 16 { WidthBound(v / 16, w - 1); }
    } else {
      assert Pow16(1) == 16;
    }
  }

  lemma Pow16of8()
    ensures Pow16(8) == WORD
  {
    assert Pow16(4) == 65536;
  }

  /** A field takes exactly eight characters if and only if it is a 32-bit number, and then it
      reads back. */
  lemma FieldWidth(v: nat)
    ensures |Hex08(v)| >= 8
    ensures |Hex08(v)| == 8 <==> v < WORD
    ensures v < WORD ==> ParseHex(Hex08(v)) == Some(v)
  {
    WidthBound(v, 8);
    Pow16of8();
    if v < WORD { HexParses(v, 8); }
  }

  /** The header's fields, one after the other. */
  function HexAll(fields: seq<nat>): seq<Byte> {
    if fields == [] then [] else HexAll(fields[..|fields| - 1]) + Hex08(fields[|fields| - 1])
  }

  ghost predicate Words(fields: seq<nat>) {
    forall i :: 0 <= i < |fields| ==> fields[i] < WORD
  }

  lemma {:induction false} HexAllLength(fields: seq<nat>)
    ensures |HexAll(fields)| >= 8 * |fields|
    ensures |HexAll(fields)| == 8 * |fields| <==> Words(fields)
  {
    hide Hex08;
    hide ParseHex;
    if fields != [] {
      var n := |fields| - 1;
      HexAllLength(fields[..n]);
      FieldWidth(fields[n]);
      assert Words(fields) <==> Words(fields[..n]) && fields[n] < WORD;
    }
  }

  lemma {:induction false} HexAllField(fields: seq<nat>, i: nat)
    requires Words(fields) && i < |fields|
    ensures |HexAll(fields)| == 8 * |fields|
    ensures HexAll(fields)[8 * i..8 * i + 8] == Hex08(fields[i])
    decreases |fields|
  {
    hide Hex08;
    hide ParseHex;
    var n := |fields| - 1;
    HexAllLength(fields);
    HexAllLength(fields[..n]);
    FieldWidth(fields[n]);
    var a, b := HexAll(fields[..n]), Hex08(fields[n]);
    assert HexAll(fields) == a + b;
    hide HexAll;
    if i < n {
      HexAllField(fields[..n], i);
      assert (a + b)[8 * i..8 * i + 8] == a[8 * i..8 * i + 8];
    } else {
      assert (a + b)[8 * i..8 * i + 8] == b;
    }
  }

  // --------------------------------------------------------------------------
  // The writer

  function Pad(size: nat): (s: seq<Byte>)
    ensures |s| < 4 && (size + |s|) % 4 == 0 && AllZero(s)
  {
    Zeros((4 - size % 4) % 4)
  }

  function Fields(inode: nat, e: Entry): (f: seq<nat>)
    ensures |f| == FIELDS
  {
    [inode, e.mode, 0, 0, e.nlink, 0, |e.data|, 0, 0, e.rmajor, e.rminor, |e.name| + 1, 0]
  }

  function HeaderOf(inode: nat, e: Entry): seq<Byte> {
    MAGIC + HexAll(Fields(inode, e))
  }

  /** The bytes of one entry; None: the header would not be 110 bytes. */
  function EntryBytes(inode: nat, e: Entry): Option<seq<Byte>> {
    var h := HeaderOf(inode, e);
    if |h| != HEADER then None
    else Some(h + (e.name + [0]) + Pad(HEADER + |e.name| + 1) + e.data + Pad(|e.data|))
  }

  const TRAILER_ENTRY := Entry(TRAILER, 0, 1, [], 0, 0)

  /** Entries from k on, numbered from inode k + 1, then the trailer. */
  function ArchiveFrom(es: seq<Entry>, k: nat): Option<seq<Byte>>
    requires k <= |es|
    decreases |es| - k
  {
    if k == |es| then EntryBytes(k + 1, TRAILER_ENTRY)
    else
      var first :- EntryBytes(k + 1, es[k]);
      var rest :- ArchiveFrom(es, k + 1);
      Some(first + rest)
  }

  ghost predicate Fits(inode: nat, e: Entry) {
    Words(Fields(inode, e))
  }

  /** Writing succeeds exactly for entries whose fields are 32-bit numbers, and writes a multiple
      of four bytes. */
  lemma EntryWritten(inode: nat, e: Entry)
    ensures EntryBytes(inode, e).Some? <==> Fits(inode, e)
    ensures EntryBytes(inode, e).Some? ==> |EntryBytes(inode, e).value| % 4 == 0
  {
    hide HexAll;
    hide Pad;
    HexAllLength(Fields(inode, e));
    Sum4(HEADER + |e.name| + 1 + |Pad(HEADER + |e.name| + 1)|, |e.data| + |Pad(|e.data|)|);
  }

  lemma Sum4(a: nat, b: nat)
    requires a % 4 == 0 && b % 4 == 0
    ensures (a + b) % 4 == 0
  {
  }

  /** With the first k entries written as `so`, what is left makes up the archive. */
  ghost predicate Ahead(es: seq<Entry>, k: nat, so: seq<Byte>)
    requires k <= |es|
  {
    && (ArchiveFrom(es, 0).Some? <==> ArchiveFrom(es, k).Some?)
    && (ArchiveFrom(es, k).Some? ==> ArchiveFrom(es, 0).value == so + ArchiveFrom(es, k).value)
  }

  lemma AheadStart(es: seq<Entry>)
    ensures Ahead(es, 0, [])
  {
    hide ArchiveFrom;
    if ArchiveFrom(es, 0).Some? { assert [] + ArchiveFrom(es, 0).value == ArchiveFrom(es, 0).value; }
  }

  lemma AheadStep(es: seq<Entry>, k: nat, so: seq<Byte>)
    requires k < |es| && Ahead(es, k, so)
    ensures EntryBytes(k + 1, es[k]).None? ==> ArchiveFrom(es, 0).None?
    ensures EntryBytes(k + 1, es[k]).Some? ==> Ahead(es, k + 1, so + EntryBytes(k + 1, es[k]).value)
  {
    hide EntryBytes;
    if ArchiveFrom(es, k).Some? {
      Associate(so, EntryBytes(k + 1, es[k]).value, ArchiveFrom(es, k + 1).value);
    }
  }

  lemma AheadEnd(es: seq<Entry>, so: seq<Byte>)
    requires Ahead(es, |es|, so)
    ensures var last := EntryBytes(|es| + 1, TRAILER_ENTRY);
            && (ArchiveFrom(es, 0).Some? <==> last.Some?)
            && (last.Some? ==> ArchiveFrom(es, 0).value == so + last.value)
  {
    hide EntryBytes;
  }

  /** The output stream of the writer. */
  class Stream {
    var out: seq<Byte>

    constructor ()
      ensures out == []
    {
      out := [];
    }

    method Pad4(size: nat)
      modifies this
      ensures out == old(out) + Pad(size)
    {
      var padding := (4 - size % 4) % 4;
      if padding != 0 {
        out := out + Zeros(padding);
      }
    }

    method WriteEntry(inode: nat, e: Entry) returns (ok: bool)
      modifies this
      ensures ok == EntryBytes(inode, e).Some?
      ensures out == if ok then old(out) + EntryBytes(inode, e).value else old(out)
    {
      hide HexAll;
      hide Pad;
      var encodedName := e.name + [0];
      var header := MAGIC + HexAll(Fields(inode, e));
      if |header| != HEADER { return false; }
      out := out + header;
      out := out + encodedName;
      Pad4(|header| + |encodedName|);
      out := out + e.data;
      Pad4(|e.data|);
      return true;
    }

    /** The archive loop; the inode counts up from one. */
    method WriteArchive(es: seq<Entry>) returns (ok: bool)
      modifies this
      ensures ok == ArchiveFrom(es, 0).Some?
      ensures ok ==> out == old(out) + ArchiveFrom(es, 0).value
    {
      hide EntryBytes;
      hide ArchiveFrom;
      hide Ahead;
      var inode := 1;
      var k := 0;
      ghost var start, so: seq<Byte> := out, [];
      AheadStart(es);
      assert out == start + so;
      while k < |es|
        invariant 0 <= k <= |es| && inode == k + 1
        invariant out == start + so && Ahead(es, k, so)
      {
        AheadStep(es, k, so);
        var done := WriteEntry(inode, es[k]);
        if !done { return false; }
        Associate(start, so, EntryBytes(inode, es[k]).value);
        so := so + EntryBytes(inode, es[k]).value;
        inode := inode + 1;
        k := k + 1;
      }
      AheadEnd(es, so);
      ok := WriteEntry(inode, TRAILER_ENTRY);
      if ok { Associate(start, so, EntryBytes(inode, TRAILER_ENTRY).value); }
    }
  }

  // --------------------------------------------------------------------------
  // The parser

  function Aligned(v: int): (r: int)
    ensures v <= r < v + 4 && r % 4 == 0
  {
    (v + 3) / 4 * 4
  }

  /** A bound of a Python slice: counted from the end if negative, and cut to the sequence. */
  function Bound(s: seq<Byte>, i: int): (r: nat)
    ensures r <= |s|
  {
    if i < -|s| then 0 else if i < 0 then i + |s| else if i < |s| then i else |s|
  }

  function Slice(s: seq<Byte>, i: int, j: int): seq<Byte> {
    if Bound(s, i) < Bound(s, j) then s[Bound(s, i)..Bound(s, j)] else []
  }

  /** A Python subscript; None: out of range. */
  function At(s: seq<Byte>, i: int): Option<Byte> {
    if 0 <= i < |s| then Some(s[i]) else if -|s| <= i < 0 then Some(s[i + |s|]) else None
  }

  function FieldAt(blob: seq<Byte>, offset: int, i: nat): Option<int> {
    ParseHex(Slice(blob, offset + 6 + i * 8, offset + 14 + i * 8))
  }

  /** Every field of a header must be a number. */
  predicate AllFields(blob: seq<Byte>, offset: int) {
    forall i :: 0 <= i < FIELDS ==> FieldAt(blob, offset, i).Some?
  }

  datatype Parsed = Parsed(name: Name, mode: int, data: seq<Byte>, next: int)

  /** All stretches of a blob. */
  function Stretches(blob: seq<Byte>): set<Name> {
    set i: nat, j: nat | i <= |blob| && i <= j <= |blob| :: blob[i..j]
  }

  /** Positions from the end, as Python counts them, and beyond it. */
  lemma FromTheEnd(s: seq<Byte>, k: int)
    requires 0 < k
    ensures k <= |s| ==> At(s, -k) == Some(s[|s| - k])
    ensures k <= |s| ==> Slice(s, -k, |s|) == s[|s| - k..] && Slice(s, 0, -k) == s[..|s| - k]
    ensures k > |s| ==> At(s, -k) == None && Slice(s, -k, |s|) == s && Slice(s, 0, -k) == []
    ensures At(s, |s| + k - 1) == None && Slice(s, |s| + k, |s| + 2 * k) == [] && Slice(s, 0, |s| + k) == s
  {
  }

  lemma SliceIsStretch(blob: seq<Byte>, i: int, j: int)
    ensures Slice(blob, i, j) in Stretches(blob)
  {
    assert blob[0..0] == [];
  }

  /** One round of the parser; `text` says which byte strings decode as text. A size may be negative
      and send the next round back. */
  function ParseEntry(blob: seq<Byte>, offset: int, text: Name -> bool): (r: Option<Parsed>)
    ensures r.Some? ==> r.value.name in Stretches(blob)
  {
    if Slice(blob, offset, offset + 6) != MAGIC || !AllFields(blob, offset) then None
    else
      var mode, size, nameSize :=
        FieldAt(blob, offset, 1).value, FieldAt(blob, offset, 6).value, FieldAt(blob, offset, 11).value;
      var nameStart := offset + HEADER;
      var nameEnd := nameStart + nameSize;
      if nameSize < 1 || At(blob, nameEnd - 1) != Some(0) then None
      else
        var name := Slice(blob, nameStart, nameEnd - 1);
        SliceIsStretch(blob, nameStart, nameEnd - 1);
        var dataStart := Aligned(nameEnd);
        var dataEnd := dataStart + size;
        if !text(name) then None
        else Some(Parsed(name, mode, Slice(blob, dataStart, dataEnd), Aligned(dataEnd)))
  }

  /** One round, in numbers: a header of 110 bytes with the magic and thirteen numbers, of which the mode
      is the second, the data size the seventh and the name size the twelfth; a name that ends in NUL
      and decodes; then the data from the next multiple of four on, and the next round from the one
      after it. */
  lemma ParseEntryExactly(blob: seq<Byte>, o: int, text: Name -> bool)
    ensures ParseEntry(blob, o, text).Some? <==>
              && Slice(blob, o, o + 6) == Ascii("070701")
              && (forall i :: 0 <= i < 13 ==> FieldAt(blob, o, i).Some?)
              && var nameSize := FieldAt(blob, o, 11).value;
                 && nameSize >= 1 && At(blob, o + 110 + nameSize - 1) == Some(0)
                 && text(Slice(blob, o + 110, o + 110 + nameSize - 1))
    ensures ParseEntry(blob, o, text).Some? ==>
              var nameEnd := o + 110 + FieldAt(blob, o, 11).value;
              var dataEnd := Aligned(nameEnd) + FieldAt(blob, o, 6).value;
              ParseEntry(blob, o, text).value ==
              Parsed(Slice(blob, o + 110, nameEnd - 1), FieldAt(blob, o, 1).value,
                     Slice(blob, Aligned(nameEnd), dataEnd), Aligned(dataEnd))
  {
    hide FieldAt;
    hide Slice;
    hide Ascii;
    Spelled();
  }

  /** Blanks are space, tab, newline, vertical tab, form feed and return. */
  lemma BlanksMean(b: Byte)
    ensures IsBlank(b) <==> b in {32, 9, 10, 11, 12, 13}
  {
  }

  type Catalogue = map<Name, (int, seq<Byte>)>

  /** The offset may go back, but the parse ends all the same: every round enters a new name, and
      there are only so many stretches of the blob that a name can be. */
  function ParseFrom(blob: seq<Byte>, offset: int, entries: Catalogue, text: Name -> bool): Option<Catalogue>
    decreases |Stretches(blob) - entries.Keys|
  {
    var p :- ParseEntry(blob, offset, text);
    if p.name == TRAILER then
      if AllZero(Slice(blob, p.next, |blob|)) then Some(entries) else None
    else if p.name in entries then None
    else
      OneLess(Stretches(blob), entries, p.name, (p.mode, p.data));
      ParseFrom(blob, p.next, entries[p.name := (p.mode, p.data)], text)
  }

  lemma OneLess(names: set<Name>, entries: Catalogue, name: Name, entry: (int, seq<Byte>))
    requires name in names && name !in entries
    ensures |names - entries[name := entry].Keys| < |names - entries.Keys|
  {
    assert names - entries[name := entry].Keys == (names - entries.Keys) - {name};
  }

  method ParseNewc(blob: seq<Byte>, text: Name -> bool) returns (r: Option<Catalogue>)
    ensures r == ParseFrom(blob, 0, map[], text)
  {
    hide ParseEntry;
    hide Stretches;
    var entries: Catalogue := map[];
    var offset: int := 0;
    while true
      invariant ParseFrom(blob, offset, entries, text) == ParseFrom(blob, 0, map[], text)
      decreases |Stretches(blob) - entries.Keys|
    {
      var p := ParseEntry(blob, offset, text);
      if p.None? { return None; }
      var parsed := p.value;
      if parsed.name == TRAILER {
        offset := parsed.next;
        var zero := IsZero(Slice(blob, offset, |blob|));
        return if zero then Some(entries) else None;
      }
      if parsed.name in entries { return None; }
      OneLess(Stretches(blob), entries, parsed.name, (parsed.mode, parsed.data));
      offset := parsed.next;
      entries := entries[parsed.name := (parsed.mode, parsed.data)];
    }
  }

  // --------------------------------------------------------------------------
  // Round trip

  lemma SliceInside(pre: seq<Byte>, mid: seq<Byte>, post: seq<Byte>, i: nat, j: nat)
    requires i <= j <= |mid|
    ensures Slice(pre + mid + post, |pre| + i, |pre| + j) == mid[i..j]
  {
  }

  /** The parts of a written entry and where they start. */
  lemma EntryParts(inode: nat, e: Entry)
    requires EntryBytes(inode, e).Some?
    ensures var b := EntryBytes(inode, e).value;
            var nameEnd := HEADER + |e.name| + 1;
            var dataStart := Aligned(nameEnd);
            && Aligned(dataStart + |e.data|) == |b|
            && b[..6] == MAGIC
            && b[6..HEADER] == HexAll(Fields(inode, e))
            && b[HEADER..nameEnd - 1] == e.name && b[nameEnd - 1] == 0
            && b[dataStart..dataStart + |e.data|] == e.data
  {
    hide HexAll;
    var h, name, pad1, pad2 := HeaderOf(inode, e), e.name + [0], Pad(HEADER + |e.name| + 1), Pad(|e.data|);
    var b := EntryBytes(inode, e).value;
    assert b == h + name + pad1 + e.data + pad2;
    assert h[..6] == MAGIC && h[6..] == HexAll(Fields(inode, e));
    hide HeaderOf;
    var nameEnd := HEADER + |e.name| + 1;
    PadAligned(nameEnd);
    PadAligned(|e.data|);
    assert Aligned(nameEnd) == nameEnd + |pad1|;
    AlignedShift(nameEnd + |pad1|, |e.data|);
    hide Pad;
    hide Aligned;
    PartsOf(h, e.name, pad1, e.data, pad2);
  }

  lemma PadAligned(n: nat)
    ensures Aligned(n) == n + |Pad(n)|
  {
  }

  lemma AlignedShift(base: nat, n: nat)
    requires base % 4 == 0
    ensures Aligned(base + n) == base + Aligned(n)
  {
  }

  lemma PartsOf(h: seq<Byte>, n: seq<Byte>, p: seq<Byte>, d: seq<Byte>, q: seq<Byte>)
    requires |h| >= 6
    ensures var b := h + (n + [0]) + p + d + q; var s := |h| + |n| + 1 + |p|;
            && b[..6] == h[..6] && b[6..|h|] == h[6..] && b[|h|..|h| + |n|] == n && b[|h| + |n|] == 0
            && b[s..s + |d|] == d && |b| == s + |d| + |q|
  {
    var b := h + (n + [0]) + p + d + q;
    assert b == h + ((n + [0]) + p + d + q);
    var s := |h| + |n| + 1 + |p|;
    assert b == (h + (n + [0]) + p) + (d + q);
    assert |h + (n + [0]) + p| == s;
  }

  lemma WrittenFields(inode: nat, e: Entry, b: seq<Byte>, i: nat)
    requires Fits(inode, e) && i < FIELDS
    requires |b| >= HEADER && b[6..HEADER] == HexAll(Fields(inode, e))
    ensures b[6 + i * 8..14 + i * 8] == Hex08(Fields(inode, e)[i])
            && ParseHex(Hex08(Fields(inode, e)[i])) == Some(Fields(inode, e)[i])
  {
    hide Hex08;
    hide ParseHex;
    var f := Fields(inode, e);
    HexAllField(f, i);
    FieldWidth(f[i]);
    hide HexAll;
    SubSlice(b, 6, HEADER, 8 * i, 8 * i + 8);
  }

  lemma SubSlice(s: seq<Byte>, a: nat, b: nat, c: nat, d: nat)
    requires a <= b <= |s| && c <= d <= b - a
    ensures s[a..b][c..d] == s[a + c..a + d]
  {
    var t, u := s[a..b][c..d], s[a + c..a + d];
    assert |t| == |u|;
    forall k | 0 <= k < |t| ensures t[k] == u[k] {
      assert t[k] == s[a..b][c + k] == s[a + (c + k)];
    }
  }

  lemma FieldsParsed(pre: seq<Byte>, inode: nat, e: Entry, b: seq<Byte>, post: seq<Byte>)
    requires Fits(inode, e) && |b| >= HEADER && b[6..HEADER] == HexAll(Fields(inode, e))
    ensures forall i :: 0 <= i < FIELDS ==> FieldAt(pre + b + post, |pre|, i) == Some(Fields(inode, e)[i])
  {
    hide HexAll;
    hide Hex08;
    hide ParseHex;
    hide Fits;
    forall i | 0 <= i < FIELDS ensures FieldAt(pre + b + post, |pre|, i) == Some(Fields(inode, e)[i]) {
      WrittenFields(inode, e, b, i);
      SliceInside(pre, b, post, 6 + i * 8, 14 + i * 8);
    }
  }

  /** The header of a written entry, field by field: inode, mode, owner and group zero, link count, time
      zero, data length, device zero, major and minor of a device file, name length with its NUL, and
      check zero. */
  lemma HeaderFields(inode: nat, e: Entry)
    requires EntryBytes(inode, e).Some?
    ensures var b := EntryBytes(inode, e).value;
            && FieldAt(b, 0, 0) == Some(inode) && FieldAt(b, 0, 1) == Some(e.mode)
            && FieldAt(b, 0, 2) == Some(0) && FieldAt(b, 0, 3) == Some(0)
            && FieldAt(b, 0, 4) == Some(e.nlink) && FieldAt(b, 0, 5) == Some(0)
            && FieldAt(b, 0, 6) == Some(|e.data|)
            && FieldAt(b, 0, 7) == Some(0) && FieldAt(b, 0, 8) == Some(0)
            && FieldAt(b, 0, 9) == Some(e.rmajor) && FieldAt(b, 0, 10) == Some(e.rminor)
            && FieldAt(b, 0, 11) == Some(|e.name| + 1) && FieldAt(b, 0, 12) == Some(0)
  {
    hide EntryBytes;
    hide HexAll;
    hide FieldAt;
    hide Fits;
    var b := EntryBytes(inode, e).value;
    EntryWritten(inode, e);
    EntryParts(inode, e);
    FieldsParsed([], inode, e, b, []);
    assert [] + b + [] == b;
  }

  /** Entries are numbered from one, and last comes the trailer, with mode zero, one link and no data. */
  lemma ArchiveFields(es: seq<Entry>, k: nat)
    requires k <= |es| && ArchiveFrom(es, k).Some?
    ensures var a := ArchiveFrom(es, k).value;
            && FieldAt(a, 0, 0) == Some(k + 1)
            && (k == |es| ==> FieldAt(a, 0, 1) == Some(0) && FieldAt(a, 0, 4) == Some(1) && FieldAt(a, 0, 6) == Some(0))
  {
    hide EntryBytes;
    hide HexAll;
    hide FieldAt;
    hide Fits;
    var e := if k == |es| then TRAILER_ENTRY else es[k];
    var a, b := ArchiveFrom(es, k).value, EntryBytes(k + 1, e).value;
    var rest := if k == |es| then [] else ArchiveFrom(es, k + 1).value;
    assert [] + b + rest == a;
    EntryWritten(k + 1, e);
    EntryParts(k + 1, e);
    FieldsParsed([], k + 1, e, b, rest);
  }

  /** The pieces of a written entry, as the parser cuts them. */
  lemma EntrySlices(pre: seq<Byte>, inode: nat, e: Entry, post: seq<Byte>)
    requires |pre| % 4 == 0 && EntryBytes(inode, e).Some?
    ensures var b := EntryBytes(inode, e).value;
            var blob, o := pre + b + post, |pre|;
            var nameEnd := o + HEADER + |e.name| + 1;
            && Slice(blob, o, o + 6) == MAGIC && At(blob, nameEnd - 1) == Some(0)
            && Slice(blob, o + HEADER, nameEnd - 1) == e.name
            && Slice(blob, Aligned(nameEnd), Aligned(nameEnd) + |e.data|) == e.data
            && Aligned(Aligned(nameEnd) + |e.data|) == o + |b|
  {
    hide EntryBytes;
    hide HexAll;
    hide Slice;
    hide Aligned;
    var b := EntryBytes(inode, e).value;
    var blob, o := pre + b + post, |pre|;
    EntryParts(inode, e);
    var nameEnd := HEADER + |e.name| + 1;
    SliceInside(pre, b, post, 0, 6);
    SliceInside(pre, b, post, HEADER, nameEnd - 1);
    AlignedShift(o, nameEnd);
    SliceInside(pre, b, post, Aligned(nameEnd), Aligned(nameEnd) + |e.data|);
    AlignedShift(o, Aligned(nameEnd) + |e.data|);
    assert blob[o + nameEnd - 1] == b[nameEnd - 1];
    assert b[0..6] == b[..6];
  }

  /** Wherever it stands, on a multiple of four, a written entry is parsed back. */
  lemma {:induction false} EntryParsed(pre: seq<Byte>, inode: nat, e: Entry, post: seq<Byte>, text: Name -> bool)
    requires |pre| % 4 == 0 && EntryBytes(inode, e).Some? && text(e.name)
    ensures var b := EntryBytes(inode, e).value;
            ParseEntry(pre + b + post, |pre|, text) == Some(Parsed(e.name, e.mode, e.data, |pre| + |b|))
  {
    hide EntryBytes;
    hide HexAll;
    hide FieldAt;
    hide Fits;
    hide Slice;
    hide Aligned;
    hide At;
    var b := EntryBytes(inode, e).value;
    var blob, o := pre + b + post, |pre|;
    EntryWritten(inode, e);
    EntryParts(inode, e);
    FieldsParsed(pre, inode, e, b, post);
    assert AllFields(blob, o) && FieldAt(blob, o, 1) == Some(e.mode) && FieldAt(blob, o, 6) == Some(|e.data|)
        && FieldAt(blob, o, 11) == Some(|e.name| + 1);
    hide AllFields;
    hide Fields;
    EntrySlices(pre, inode, e, post);
  }

  /** What the parser should have collected after the first k entries. */
  function Collected(es: seq<Entry>, k: nat): Catalogue
    requires k <= |es|
  {
    if k == 0 then map[] else Collected(es, k - 1)[es[k - 1].name := (es[k - 1].mode, es[k - 1].data)]
  }

  lemma {:induction false} CollectedKeys(es: seq<Entry>, k: nat)
    requires k <= |es|
    ensures forall n :: n in Collected(es, k) <==> exists i :: 0 <= i < k && es[i].name == n
  {
    if k > 0 { CollectedKeys(es, k - 1); }
  }

  /** The first k entries have names an archive can hold: distinct, and not the trailer's. */
  ghost predicate Nameable(es: seq<Entry>, k: nat)
    requires k <= |es|
  {
    && (forall i :: 0 <= i < k ==> es[i].name != TRAILER)
    && (forall i, j :: 0 <= i < j < k ==> es[i].name != es[j].name)
  }

  /** All names decode as text. */
  ghost predicate Decodable(es: seq<Entry>, text: Name -> bool) {
    (forall i :: 0 <= i < |es| ==> text(es[i].name)) && text(TRAILER)
  }

  lemma ParseStep(blob: seq<Byte>, offset: nat, entries: Catalogue, text: Name -> bool, p: Parsed)
    requires ParseEntry(blob, offset, text) == Some(p)
    ensures ParseFrom(blob, offset, entries, text) ==
            if p.name == TRAILER then (if AllZero(Slice(blob, p.next, |blob|)) then Some(entries) else None)
            else if p.name in entries then None
            else ParseFrom(blob, p.next, entries[p.name := (p.mode, p.data)], text)
  {
    hide ParseEntry;
  }

  /** The parser at a written entry that more bytes follow. */
  lemma ParseWritten(pre: seq<Byte>, inode: nat, e: Entry, rest: seq<Byte>, entries: Catalogue, text: Name -> bool)
    requires |pre| % 4 == 0 && EntryBytes(inode, e).Some? && text(e.name)
    ensures var b := EntryBytes(inode, e).value;
            ParseFrom(pre + (b + rest), |pre|, entries, text) ==
            if e.name == TRAILER then (if AllZero(rest) then Some(entries) else None)
            else if e.name in entries then None
            else ParseFrom((pre + b) + rest, |pre + b|, entries[e.name := (e.mode, e.data)], text)
  {
    hide EntryBytes;
    hide ParseEntry;
    hide ParseFrom;
    hide AllZero;
    var b := EntryBytes(inode, e).value;
    var blob := (pre + b) + rest;
    Associate(pre, b, rest);
    EntryParsed(pre, inode, e, rest, text);
    ParseStep(blob, |pre|, entries, text, Parsed(e.name, e.mode, e.data, |pre| + |b|));
    SliceRest(pre + b, rest);
  }

  lemma SliceRest(s: seq<Byte>, rest: seq<Byte>)
    ensures Slice(s + rest, |s|, |s + rest|) == rest
  {
  }

  /** An archive is not all zero. */
  lemma ArchiveNonzero(es: seq<Entry>, k: nat, tail: seq<Byte>)
    requires k <= |es| && ArchiveFrom(es, k).Some?
    ensures !AllZero(ArchiveFrom(es, k).value + tail)
  {
    hide Fits;
    hide HexAll;
    hide Pad;
    var e := if k == |es| then TRAILER_ENTRY else es[k];
    var b := EntryBytes(k + 1, e).value;
    assert b[0] == 0x30;
    assert (ArchiveFrom(es, k).value + tail)[0] == 0x30;
  }

  lemma {:induction false} ParsedFrom(es: seq<Entry>, k: nat, pre: seq<Byte>, tail: seq<Byte>, text: Name -> bool)
    requires k <= |es| && |pre| % 4 == 0 && Decodable(es, text) && Nameable(es, k) && ArchiveFrom(es, k).Some?
    ensures ParseFrom(pre + (ArchiveFrom(es, k).value + tail), |pre|, Collected(es, k), text)
         == if Nameable(es, |es|) && AllZero(tail) then Some(Collected(es, |es|)) else None
    decreases |es| - k
  {
    hide EntryBytes;
    hide ParseEntry;
    hide ParseFrom;
    hide AllZero;
    if k == |es| {
      ParseWritten(pre, k + 1, TRAILER_ENTRY, tail, Collected(es, k), text);
    } else {
      var e, b, rest := es[k], EntryBytes(k + 1, es[k]).value, ArchiveFrom(es, k + 1).value;
      ParseWritten(pre, k + 1, e, rest + tail, Collected(es, k), text);
      Associate(b, rest, tail);
      if e.name == TRAILER {
        ArchiveNonzero(es, k + 1, tail);
      } else {
        CollectedKeys(es, k);
        if e.name !in Collected(es, k) {
          EntryWritten(k + 1, e);
          hide Fits;
          Associate(pre + b, rest, tail);
          ParsedFrom(es, k + 1, pre + b, tail, text);
        }
      }
    }
  }

  /** The archive of any list of entries with decodable names, followed by any tail, parses if and
      only if the names are distinct and none is the trailer's, and the tail is zero; the result is
      exactly the entries' names, modes and data. */
  lemma {:induction false} RoundTrip(es: seq<Entry>, tail: seq<Byte>, text: Name -> bool)
    requires Decodable(es, text) && ArchiveFrom(es, 0).Some?
    ensures var c := ParseFrom(ArchiveFrom(es, 0).value + tail, 0, map[], text);
            && (c.Some? <==> Nameable(es, |es|) && AllZero(tail))
            && (c.Some? ==>
                  && (forall n :: n in c.value <==> exists i :: 0 <= i < |es| && es[i].name == n)
                  && (forall i :: 0 <= i < |es| ==> c.value[es[i].name] == (es[i].mode, es[i].data)))
  {
    hide ParseFrom;
    hide ArchiveFrom;
    ParsedFrom(es, 0, [], tail, text);
    var blob := ArchiveFrom(es, 0).value + tail;
    assert [] + blob == blob;
    if Nameable(es, |es|) {
      CollectedKeys(es, |es|);
      forall i | 0 <= i < |es|
        ensures es[i].name in Collected(es, |es|)
        ensures Collected(es, |es|)[es[i].name] == (es[i].mode, es[i].data)
      {
        CollectedValue(es, |es|, i);
      }
    }
  }

  lemma {:induction false} CollectedValue(es: seq<Entry>, k: nat, i: nat)
    requires i < k <= |es| && forall i, j :: 0 <= i < j < |es| ==> es[i].name != es[j].name
    ensures es[i].name in Collected(es, k) && Collected(es, k)[es[i].name] == (es[i].mode, es[i].data)
  {
    if i < k - 1 { CollectedValue(es, k - 1, i); }
  }

  /** Writing an archive succeeds exactly when every field, the inode numbers included, is a 32-bit
      number. */
  lemma {:induction false} ArchiveWritten(es: seq<Entry>, k: nat)
    requires k <= |es|
    ensures ArchiveFrom(es, k).Some? <==> (forall i :: k <= i < |es| ==> Fits(i + 1, es[i])) && |es| + 1 < WORD
    decreases |es| - k
  {
    hide EntryBytes;
    hide Fits;
    if k == |es| {
      EntryWritten(k + 1, TRAILER_ENTRY);
      TrailerFits(k + 1);
    } else {
      EntryWritten(k + 1, es[k]);
      ArchiveWritten(es, k + 1);
    }
  }

  lemma TrailerFits(inode: nat)
    ensures Fits(inode, TRAILER_ENTRY) <==> inode < WORD
  {
    var f := Fields(inode, TRAILER_ENTRY);
    assert f[0] == inode;
  }
}
