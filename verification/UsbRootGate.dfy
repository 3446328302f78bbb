/** The read-only gate in front of a USB root disk: which disks it lets through (sections 5.2.3,
    5.3.2 and 5.3.3 of the UEFI Specification 2.10 give the layouts it checks). */
module UsbRootGate {
  import Arith
  import opened Wrappers
  import opened Bytes
  import opened Crc32
  import Words

  const SECTOR := 512
  const MAX_ARRAY := 0x10_0000
  const INT64_MAX := 0x7fff_ffff_ffff_ffff
  const UINT32_MAX := 0xffff_ffff

  type U64 = x: int | 0 <= x < 0x1_0000_0000_0000_0000

  /** The identities asked for, in on-disk byte order. */
  datatype Identity = Identity(disk: seq<Byte>, part: seq<Byte>, fs: seq<Byte>)

  const EFI_PART: seq<Byte> := [0x45, 0x46, 0x49, 0x20, 0x50, 0x41, 0x52, 0x54]
  const LINUX_FS: seq<Byte> := [0xaf, 0x3d, 0xc6, 0x0f, 0x83, 0x84, 0x72, 0x47, 0x8e, 0x79, 0x3d, 0x69, 0xd8, 0x47,
                                0x7d, 0xe4]
  const LABEL: seq<Byte> := [0x74, 0x36, 0x30, 0x34, 0x30, 0x72, 0x6f, 0x6f, 0x74]   // t6040root

  /** le16, le32 and le64 at an offset. */
  function Num(b: seq<Byte>, at: nat, width: nat): nat
    requires at + width <= |b|
  {
    FromLe(b[at..at + width])
  }

  function ReadAt(media: seq<Byte>, n: nat, off: nat): Option<seq<Byte>> {
    if off > |media| || n > |media| - off || off > INT64_MAX then None else Some(media[off..off + n])
  }

  // --------------------------------------------------------------------------
  // One GPT header

  datatype Gpt = Gpt(current: nat, backup: nat, first: nat, last: nat, table: nat,
                     count: nat, entrySize: nat, arrayCrc: nat, guid: seq<Byte>)
  {
    function ArrayBytes(): nat {
      count * entrySize
    }
    function ArraySectors(): nat {
      (count * entrySize + SECTOR - 1) / SECTOR
    }
  }

  /** The bytes the header CRC covers: the first n, with the CRC field itself zeroed. */
  function Covered(b: seq<Byte>, n: nat): seq<Byte>
    requires 20 <= n <= |b|
  {
    b[..16] + [0, 0, 0, 0] + b[20..n]
  }

  predicate PowerOfTwo(x: nat) {
    x == 1 || (x > 1 && x % 2 == 0 && PowerOfTwo(x / 2))
  }

  predicate SizesOk(h: Gpt) {
    && h.count != 0 && h.entrySize >= 128 && h.entrySize % 128 == 0
    && PowerOfTwo(h.entrySize / 128)
    && h.count <= MAX_ARRAY / h.entrySize
  }

  /** The array holds at least one entry and stays within its cap, so its size cannot overflow. */
  lemma SizesBound(h: Gpt)
    requires SizesOk(h)
    ensures 128 <= h.entrySize <= h.ArrayBytes() <= MAX_ARRAY
  {
    var c, e := h.count, h.entrySize;
    Arith.MulNonNegative(c - 1, e);
    assert c * e == e + (c - 1) * e;
    Arith.DivMod(MAX_ARRAY, e);
    Arith.MulNonNegative(e, MAX_ARRAY / e - c);
    assert e * (MAX_ARRAY / e) == e * c + e * (MAX_ARRAY / e - c);
  }

  predicate Geometry(h: Gpt, lba: nat, sectors: nat)
    requires sectors >= 1
  {
    && h.current == lba && h.backup < sectors && h.first <= h.last
    && h.first >= 3 && h.last < sectors - 1
    && SizesOk(h)
    && h.table >= 2 && h.table < sectors && h.ArraySectors() <= sectors - h.table
    && (if lba == 1 then
          h.backup == sectors - 1 && h.table == 2 && h.table + h.ArraySectors() <= h.first
        else
          h.backup == 1 && h.table > h.last && h.table + h.ArraySectors() == lba)
  }

  function Decode(b: seq<Byte>): Gpt
    requires |b| == SECTOR
  {
    Gpt(Num(b, 24, 8), Num(b, 32, 8), Num(b, 40, 8), Num(b, 48, 8), Num(b, 72, 8),
        Num(b, 80, 4), Num(b, 84, 4), Num(b, 88, 4), b[56..72])
  }

  function HeaderSize(b: seq<Byte>): nat
    requires |b| == SECTOR
  {
    Num(b, 12, 4)
  }

  predicate HeaderIntact(b: seq<Byte>)
    requires |b| == SECTOR
  {
    && b[..8] == EFI_PART && Num(b, 8, 4) == 0x10000 && Num(b, 20, 4) == 0
    && 92 <= HeaderSize(b) <= SECTOR
    && Crc(Covered(b, HeaderSize(b))) == Num(b, 16, 4)
  }

  function ReadHeader(media: seq<Byte>, lba: nat, sectors: nat): (r: Option<Gpt>)
    requires sectors >= 1
    ensures r.Some? ==> Geometry(r.value, lba, sectors)
  {
    var b :- ReadAt(media, SECTOR, lba * SECTOR);
    if HeaderIntact(b) && Geometry(Decode(b), lba, sectors) then Some(Decode(b)) else None
  }

  function ReadArray(media: seq<Byte>, h: Gpt): (r: Option<seq<Byte>>)
    ensures r.Some? ==> |r.value| == h.ArrayBytes()
  {
    var p :- ReadAt(media, h.ArrayBytes(), h.table * SECTOR);
    if Crc(p) == h.arrayCrc then Some(p) else None
  }

  // --------------------------------------------------------------------------
  // The other checks

  predicate MbrOk(m: seq<Byte>, sectors: nat)
    requires |m| == SECTOR
  {
    && m[510] == 0x55 && m[511] == 0xaa && m[450] == 0xee && m[446] == 0
    && Num(m, 454, 4) == 1
    && Num(m, 458, 4) == (if sectors - 1 > UINT32_MAX then UINT32_MAX else sectors - 1)
    && AllZero(m[462..510])
  }

  predicate CopiesAgree(a: Gpt, b: Gpt, id: Identity) {
    && a.guid == id.disk && b.guid == id.disk
    && a.first == b.first && a.last == b.last && a.count == b.count
    && a.entrySize == b.entrySize && a.arrayCrc == b.arrayCrc
  }

  /** UTF-16 code unit i of the root label. */
  function LabelUnit(i: nat): nat {
    if i < |LABEL| then LABEL[i] else 0
  }

  predicate LabelOk(pa: seq<Byte>)
    requires |pa| >= 128
  {
    forall i :: 0 <= i < 36 ==> Num(pa, 56 + i * 2, 2) == LabelUnit(i)
  }

  datatype Extent = Extent(first: nat, last: nat)

  predicate RootOk(pa: seq<Byte>, a: Gpt, id: Identity)
    requires |pa| >= 128
  {
    var first, last := Num(pa, 32, 8), Num(pa, 40, 8);
    && pa[..16] == LINUX_FS && pa[16..32] == id.part
    && first == 2048 && a.first <= first <= last <= a.last && Num(pa, 48, 8) == 0
    && LabelOk(pa)
  }

  function BlockSize(sb: seq<Byte>): nat
    requires |sb| == 1024
  {
    var shift := Num(sb, 24, 4);
    if shift > 6 then 0
    else [1024, 2048, 4096, 8192, 16384, 32768, 65536][shift]
  }

  function Blocks(sb: seq<Byte>): nat
    requires |sb| == 1024
  {
    Num(sb, 4, 4) + (if (Num(sb, 96, 4) / 0x80) % 2 == 1 then Num(sb, 0x150, 4) * 0x1_0000_0000 else 0)
  }

  predicate Ext4Ok(sb: seq<Byte>, id: Identity, partBytes: nat)
    requires |sb| == 1024
  {
    && Num(sb, 56, 2) == 0xef53 && Num(sb, 76, 4) == 1 && sb[104..120] == id.fs
    && sb[120..136] == LABEL + Zeros(7)
    && Num(sb, 58, 2) == 1 && (Num(sb, 96, 4) / 4) % 2 == 0
    && Num(sb, 24, 4) <= 6
    && Blocks(sb) != 0 && BlockSize(sb) > 0 && Blocks(sb) <= partBytes / BlockSize(sb)
  }

  predicate ArgsOk(layoutBytes: nat, expectedMedia: nat) {
    && layoutBytes % SECTOR == 0 && expectedMedia % SECTOR == 0
    && 68 * SECTOR <= layoutBytes <= expectedMedia <= INT64_MAX
  }

  /** The partition entry and the file system in it. */
  function RootExtent(media: seq<Byte>, id: Identity, a: Gpt, pa: seq<Byte>): Option<Extent>
    requires 128 <= a.entrySize <= |pa|
  {
    if !RootOk(pa, a, id) || !AllZero(pa[a.entrySize..]) then None
    else
      var e := Extent(Num(pa, 32, 8), Num(pa, 40, 8));
      var sb :- ReadAt(media, 1024, e.first * SECTOR + 1024);
      if Ext4Ok(sb, id, (e.last - e.first + 1) * SECTOR) then Some(e) else None
  }

  /** Both headers and both arrays. */
  function Tables(media: seq<Byte>, id: Identity, sectors: nat): (r: Option<(Gpt, Gpt, seq<Byte>)>)
    requires sectors >= 1
    ensures r.Some? ==> 128 <= r.value.0.entrySize <= |r.value.2|
  {
    var a :- ReadHeader(media, 1, sectors);
    var b :- ReadHeader(media, sectors - 1, sectors);
    if !CopiesAgree(a, b, id) then None
    else
      var pa :- ReadArray(media, a);
      var pb :- ReadArray(media, b);
      SizesBound(a);
      if pa == pb then Some((a, b, pa)) else None
  }

  /** The whole gate: the root extent, or refusal. */
  function Gate(media: seq<Byte>, id: Identity, layoutBytes: nat, expectedMedia: nat): Option<Extent> {
    if !ArgsOk(layoutBytes, expectedMedia) || |media| != expectedMedia then None
    else
      var sectors := layoutBytes / SECTOR;
      var mbr :- ReadAt(media, SECTOR, 0);
      if !MbrOk(mbr, sectors) then None
      else
        var (a, b, pa) :- Tables(media, id, sectors);
        RootExtent(media, id, a, pa)
  }

  // --------------------------------------------------------------------------
  // What acceptance means

  /** A run of sectors, lo to hi - 1. */
  datatype Area = Area(lo: nat, hi: nat)

  /** Protective MBR, primary header, primary array, usable sectors, backup array, backup header. */
  function Areas(a: Gpt, b: Gpt, sectors: nat): seq<Area>
    requires sectors >= 1
  {
    [Area(0, 1), Area(1, 2), Area(a.table, a.table + a.ArraySectors()), Area(a.first, a.last + 1),
     Area(b.table, b.table + b.ArraySectors()), Area(sectors - 1, sectors)]
  }

  ghost predicate Ordered(areas: seq<Area>) {
    && (forall i :: 0 <= i < |areas| ==> areas[i].lo < areas[i].hi)
    && (forall i, j :: 0 <= i < j < |areas| ==> areas[i].hi <= areas[j].lo)
  }

  /** If the gate accepts, the six areas are in order, pairwise disjoint and inside the pinned
      layout, both arrays hold the same bytes, the root partition is inside the usable sectors, and
      the file system fits in it. */
  lemma {:induction false} AcceptedLayout(media: seq<Byte>, id: Identity, layoutBytes: nat, expectedMedia: nat)
    requires Gate(media, id, layoutBytes, expectedMedia).Some?
    ensures var sectors := layoutBytes / SECTOR;
            && sectors * SECTOR == layoutBytes <= |media|
            && sectors >= 1 && Tables(media, id, sectors).Some?
            && var (a, b, pa) := Tables(media, id, sectors).value;
               var e := Gate(media, id, layoutBytes, expectedMedia).value;
               && Ordered(Areas(a, b, sectors))
               && ReadAt(media, a.ArrayBytes(), a.table * SECTOR) == Some(pa)
               && ReadAt(media, a.ArrayBytes(), b.table * SECTOR) == Some(pa)
               && a.first <= 2048 == e.first <= e.last <= a.last
               && FileSystemFits(media, e)
  {
    hide HeaderIntact;
    hide MbrOk;
    hide Crc;
    hide PowerOfTwo;
    hide RootExtent;
    hide Geometry;
    hide Ordered;
    hide FileSystemFits;
    var sectors := layoutBytes / SECTOR;
    var (a, b, pa) := Tables(media, id, sectors).value;
    RootFits(media, id, a, pa);
    AreasOrdered(a, b, sectors);
  }

  /** The root entry and its file system are the ones asked for, and no other entry is in use. */
  ghost predicate IsRoot(media: seq<Byte>, id: Identity, entrySize: nat, pa: seq<Byte>, e: Extent) {
    && 128 <= entrySize <= |pa|
    && pa[..16] == LINUX_FS && pa[16..32] == id.part && LabelOk(pa) && Num(pa, 48, 8) == 0
    && AllZero(pa[entrySize..])
    && e == Extent(Num(pa, 32, 8), Num(pa, 40, 8))
    && var sb := ReadAt(media, 1024, e.first * SECTOR + 1024);
       sb.Some? && |sb.value| == 1024 && sb.value[104..120] == id.fs
  }

  lemma RootIs(media: seq<Byte>, id: Identity, a: Gpt, pa: seq<Byte>)
    requires 128 <= a.entrySize <= |pa| && RootExtent(media, id, a, pa).Some?
    ensures IsRoot(media, id, a.entrySize, pa, RootExtent(media, id, a, pa).value)
  {
    hide LabelOk;
    hide AllZero;
    hide Blocks;
    hide BlockSize;
    hide FromLe;
  }

  /** It is also the disk, the partition and the file system asked for, and there is no other
      partition: neither in the GPT nor in the MBR. */
  lemma {:induction false} AcceptedIdentity(media: seq<Byte>, id: Identity, layoutBytes: nat, expectedMedia: nat)
    requires Gate(media, id, layoutBytes, expectedMedia).Some?
    ensures var sectors := layoutBytes / SECTOR;
            && |media| == expectedMedia >= SECTOR && sectors >= 1 && MbrOk(media[..SECTOR], sectors)
            && Tables(media, id, sectors).Some?
            && var (a, b, pa) := Tables(media, id, sectors).value;
               && a.guid == b.guid == id.disk
               && IsRoot(media, id, a.entrySize, pa, Gate(media, id, layoutBytes, expectedMedia).value)
  {
    hide ReadHeader;
    hide ReadArray;
    hide RootExtent;
    hide MbrOk;
    hide Geometry;
    hide IsRoot;
    assert ReadAt(media, SECTOR, 0) == Some(media[..SECTOR]);
    var (a, b, pa) := Tables(media, id, layoutBytes / SECTOR).value;
    RootIs(media, id, a, pa);
  }

  // --------------------------------------------------------------------------
  // The same in bytes

  /** A protective MBR: the signature, one inactive partition of type 0xee from sector 1 on over the whole
      layout as far as 32 bits go, and nothing else. */
  ghost predicate ProtectiveMbr(m: seq<Byte>, sectors: nat) {
    && |m| == 512 && m[510] == 0x55 && m[511] == 0xaa && m[446] == 0 && m[450] == 0xee
    && FromLe(m[454..458]) == 1
    && FromLe(m[458..462]) == (if sectors <= 0x1_0000_0000 then sectors - 1 else 0xffff_ffff)
    && forall k :: 462 <= k < 510 ==> m[k] == 0
  }

  /** A GPT header of revision 1.0 at sector lba, for this disk, naming the other copy, with the CRC of
      its own bytes and the CRC field taken as zero. */
  ghost predicate GptHeader(b: seq<Byte>, lba: nat, other: nat, disk: seq<Byte>) {
    && |b| == 512 && b[..8] == Ascii("EFI PART") && FromLe(b[8..12]) == 0x10000 && FromLe(b[20..24]) == 0
    && FromLe(b[24..32]) == lba && FromLe(b[32..40]) == other && b[56..72] == disk
    && var n := FromLe(b[12..16]);
       92 <= n <= 512 && FromLe(b[16..20]) == Crc(b[..16] + [0, 0, 0, 0] + b[20..n])
  }

  /** A clean ext4 of this identity, with the label t6040root, that needs no journal replay and whose
      blocks fit in so many bytes. */
  ghost predicate CleanExt4(sb: seq<Byte>, fs: seq<Byte>, room: nat) {
    && |sb| == 1024 && FromLe(sb[56..58]) == 0xef53 && FromLe(sb[58..60]) == 1 && FromLe(sb[76..80]) == 1
    && sb[104..120] == fs && sb[120..136] == Ascii("t6040root") + [0, 0, 0, 0, 0, 0, 0]
    && var features, shift := FromLe(sb[96..100]), FromLe(sb[24..28]);
       var high := if (features / 0x80) % 2 == 1 then FromLe(sb[0x150..0x154]) else 0;
       var blocks := FromLe(sb[4..8]) + 0x1_0000_0000 * high;
       && (features / 4) % 2 == 0 && shift <= 6
       && 0 < blocks * (1024 * Words.Pow2(shift)) <= room
  }

  /** Code unit i of the name in a partition entry. */
  function NameUnit(pa: seq<Byte>, i: nat): nat
    requires |pa| >= 128 && i < 36
  {
    FromLe(pa[56 + 2 * i..58 + 2 * i])
  }

  /** A root entry: type, identity and name, no attributes. */
  ghost predicate RootEntry(pa: seq<Byte>, part: seq<Byte>) {
    && |pa| >= 128 && pa[..16] == LINUX_FS && pa[16..32] == part && FromLe(pa[48..56]) == 0
    && forall i :: 0 <= i < 36 ==> NameUnit(pa, i) == if i < 9 then "t6040root"[i] as int else 0
  }

  lemma MbrBytes(m: seq<Byte>, sectors: nat)
    requires |m| == SECTOR && sectors >= 1
    ensures MbrOk(m, sectors) <==> ProtectiveMbr(m, sectors)
  {
    hide FromLe;
    assert forall k :: 462 <= k < 510 ==> m[462..510][k - 462] == m[k];
    if forall k :: 462 <= k < 510 ==> m[k] == 0 {
      assert AllZero(m[462..510]);
    }
  }

  lemma HeaderBytes(media: seq<Byte>, lba: nat, sectors: nat)
    requires 1 <= sectors && lba < sectors && sectors * SECTOR <= |media| <= INT64_MAX
    ensures var b := media[lba * SECTOR..lba * SECTOR + SECTOR];
            var h := Decode(b);
            && (ReadHeader(media, lba, sectors).Some? <==>
                  GptHeader(b, lba, h.backup, h.guid) && Geometry(h, lba, sectors))
            && (ReadHeader(media, lba, sectors).Some? ==> ReadHeader(media, lba, sectors) == Some(h))
  {
    hide FromLe;
    hide Crc;
    Spelled();
  }

  lemma Spelled()
    ensures EFI_PART == Ascii("EFI PART") && LABEL == Ascii("t6040root")
  {
  }

  /** The Linux filesystem type, 0FC63DAF-8483-4772-8E79-3D69D8477DE4, as it stands on disk. */
  lemma TypeSpelled()
    ensures FromLe(LINUX_FS[..4]) == 0x0fc6_3daf && LINUX_FS[4..6] == [0x83, 0x84] && LINUX_FS[6..8] == [0x72, 0x47]
    ensures LINUX_FS[8..] == [0x8e, 0x79, 0x3d, 0x69, 0xd8, 0x47, 0x7d, 0xe4]
  {
    hide FromLe;
    var t: seq<Byte> := [0xaf, 0x3d, 0xc6, 0x0f];
    assert LINUX_FS[..4] == t;
    FromLe4(0xaf, 0x3d, 0xc6, 0x0f);
  }

  lemma BlockSizeMeans(sb: seq<Byte>)
    requires |sb| == 1024 && Num(sb, 24, 4) <= 6
    ensures BlockSize(sb) == 1024 * Words.Pow2(Num(sb, 24, 4))
  {
    hide FromLe;
    var s := Num(sb, 24, 4);
    assert Words.Pow2(0) == 1 && Words.Pow2(1) == 2 && Words.Pow2(2) == 4 && Words.Pow2(3) == 8;
    assert Words.Pow2(4) == 16 && Words.Pow2(5) == 32 && Words.Pow2(6) == 64;
  }

  lemma SuperBytes(sb: seq<Byte>, id: Identity, room: nat)
    requires |sb| == 1024
    ensures Ext4Ok(sb, id, room) <==> CleanExt4(sb, id.fs, room)
  {
    hide FromLe;
    Spelled();
    assert Zeros(7) == [0, 0, 0, 0, 0, 0, 0];
    if Num(sb, 24, 4) <= 6 {
      BlockSizeMeans(sb);
      hide BlockSize;
      RoomFor(Blocks(sb), 1024 * Words.Pow2(Num(sb, 24, 4)), room);
    }
  }

  lemma RoomFor(blocks: nat, size: nat, room: nat)
    requires size > 0
    ensures blocks != 0 && blocks <= room / size <==> 0 < blocks * size <= room
  {
    Arith.QuotientBound(room, size, blocks);
    Arith.MulNonNegative(blocks, size);
    if blocks > 0 { Arith.MulNonNegative(blocks - 1, size); }
    assert blocks * size == (blocks - 1) * size + size;
  }

  lemma EntryBytes(pa: seq<Byte>, a: Gpt, id: Identity)
    requires |pa| >= 128
    ensures RootOk(pa, a, id) <==>
              RootEntry(pa, id.part) && a.first <= 2048 == FromLe(pa[32..40]) <= FromLe(pa[40..48]) <= a.last
  {
    hide FromLe;
    Spelled();
    forall i | 0 <= i < 36
      ensures NameUnit(pa, i) == Num(pa, 56 + i * 2, 2) && LabelUnit(i) == if i < 9 then "t6040root"[i] as int else 0
    {
      assert 56 + i * 2 + 2 == 58 + 2 * i;
    }
  }

  /** Both headers describe the layout: each names the other and its own place, the arrays, of entries
      whose size is 128 times a power of two and of at most a mebibyte, stand right behind and right in
      front of them, and all areas are in order. */
  ghost predicate Layout(a: Gpt, b: Gpt, n: nat)
    requires n >= 1
  {
    && a.current == 1 && a.backup == n - 1 && b.current == n - 1 && b.backup == 1
    && a.first == b.first && a.last == b.last && a.count == b.count && a.entrySize == b.entrySize
    && a.count >= 1 && (exists k: nat :: a.entrySize == 128 * Words.Pow2(k)) && a.count * a.entrySize <= 0x10_0000
    && a.table == 2 && b.table + b.ArraySectors() == n - 1 && Ordered(Areas(a, b, n))
  }

  lemma SizesMean(h: Gpt)
    ensures SizesOk(h) <==>
              && h.count >= 1 && (exists k: nat :: h.entrySize == 128 * Words.Pow2(k))
              && h.count * h.entrySize <= 0x10_0000
  {
    hide PowerOfTwo;
    var c, e := h.count, h.entrySize;
    EntrySizes(e);
    if e >= 128 { Arith.QuotientBound(MAX_ARRAY, e, c); }
  }

  lemma EntrySizes(e: nat)
    ensures e >= 128 && e % 128 == 0 && PowerOfTwo(e / 128) <==> exists k: nat :: e == 128 * Words.Pow2(k)
  {
    hide PowerOfTwo;
    PowerMeans(e / 128);
    if k: nat :| e == 128 * Words.Pow2(k) {
      assert e / 128 == Words.Pow2(k);
    }
    if e % 128 == 0 {
      if k: nat :| e / 128 == Words.Pow2(k) { assert e == 128 * Words.Pow2(k); }
    }
  }

  lemma LayoutMeans(a: Gpt, b: Gpt, n: nat)
    requires n >= 68
    ensures (&& Geometry(a, 1, n) && Geometry(b, n - 1, n)
             && a.first == b.first && a.last == b.last && a.count == b.count && a.entrySize == b.entrySize)
            <==> Layout(a, b, n)
  {
    hide SizesOk;
    hide Ordered;
    LayoutFacts(a, b, n);
    if Geometry(a, 1, n) && Geometry(b, n - 1, n) && a.first == b.first && a.last == b.last
       && a.count == b.count && a.entrySize == b.entrySize {
      AreasOrdered(a, b, n);
      SizesMean(a);
    }
    if Layout(a, b, n) {
      LayoutIsGeometry(a, b, n);
    }
  }

  lemma LayoutIsGeometry(a: Gpt, b: Gpt, n: nat)
    requires n >= 68 && Layout(a, b, n) && SizesOk(a) && SizesOk(b)
    ensures Geometry(a, 1, n) && Geometry(b, n - 1, n)
  {
    hide SizesOk;
    var areas := Areas(a, b, n);
    assert areas[2].lo < areas[2].hi && areas[3].lo < areas[3].hi && areas[4].lo < areas[4].hi;
    assert areas[2].hi <= areas[3].lo && areas[3].hi <= areas[4].lo && areas[4].hi <= areas[5].lo;
  }

  /** A disk of the pinned size that holds what it should. */
  ghost predicate GoodDisk(media: seq<Byte>, id: Identity, layoutBytes: nat, expectedMedia: nat, e: Extent) {
    && layoutBytes % 512 == 0 && expectedMedia % 512 == 0 && 68 * 512 <= layoutBytes <= expectedMedia
    && |media| == expectedMedia <= 0x7fff_ffff_ffff_ffff
    && var n := layoutBytes / 512;
       var h, g := media[512..1024], media[(n - 1) * 512..n * 512];
       var a, b := Decode(h), Decode(g);
       && ProtectiveMbr(media[..512], n) && GptHeader(h, 1, n - 1, id.disk) && GptHeader(g, n - 1, 1, id.disk)
       && Layout(a, b, n) && a.arrayCrc == b.arrayCrc
       && GoodRoot(media, id, a, b, e)
  }

  /** Both arrays are the same and have the CRC, and hold one partition with one clean file system. */
  ghost predicate GoodRoot(media: seq<Byte>, id: Identity, a: Gpt, b: Gpt, e: Extent) {
    && a.table * 512 + a.ArrayBytes() <= |media| && b.table * 512 + a.ArrayBytes() <= |media|
    && 128 <= a.entrySize <= a.ArrayBytes()
    && var pa := media[a.table * 512..a.table * 512 + a.ArrayBytes()];
       && pa == media[b.table * 512..b.table * 512 + a.ArrayBytes()] && Crc(pa) == a.arrayCrc
       && RootEntry(pa, id.part) && AllZero(pa[a.entrySize..])
       && e == Extent(FromLe(pa[32..40]), FromLe(pa[40..48]))
       && a.first <= 2048 == e.first <= e.last <= a.last && e.first * 512 + 2048 <= |media|
       && CleanExt4(media[e.first * 512 + 1024..e.first * 512 + 2048], id.fs, (e.last - e.first + 1) * 512)
  }

  lemma RootExactly(media: seq<Byte>, id: Identity, a: Gpt, b: Gpt, n: nat, e: Extent)
    requires n >= 68 && n * SECTOR <= |media| <= INT64_MAX && Layout(a, b, n) && a.arrayCrc == b.arrayCrc && SizesOk(a)
    ensures GoodRoot(media, id, a, b, e) <==>
              && ReadArray(media, a).Some? && ReadArray(media, a) == ReadArray(media, b)
              && 128 <= a.entrySize <= |ReadArray(media, a).value|
              && RootExtent(media, id, a, ReadArray(media, a).value) == Some(e)
  {
    hide RootEntry;
    hide CleanExt4;
    hide Ext4Ok;
    hide RootOk;
    hide AllZero;
    hide FromLe;
    hide Crc;
    hide SizesOk;
    ArraysInside(a, b, n);
    hide Layout;
    var bytes := a.ArrayBytes();
    var pa, pb := media[a.table * 512..a.table * 512 + bytes], media[b.table * 512..b.table * 512 + bytes];
    assert ReadAt(media, bytes, a.table * SECTOR) == Some(pa) && ReadAt(media, bytes, b.table * SECTOR) == Some(pb);
    EntryBytes(pa, a, id);
    var first, last := Num(pa, 32, 8), Num(pa, 40, 8);
    if a.first <= first == 2048 <= last <= a.last && first * SECTOR + 2048 <= |media| {
      var sb := media[first * 512 + 1024..first * 512 + 2048];
      assert ReadAt(media, 1024, first * SECTOR + 1024) == Some(sb);
      SuperBytes(sb, id, (last - first + 1) * SECTOR);
    }
  }

  lemma ArraysInside(a: Gpt, b: Gpt, n: nat)
    requires n >= 68 && Layout(a, b, n) && SizesOk(a)
    ensures 128 <= a.entrySize <= a.ArrayBytes() == b.ArrayBytes()
    ensures a.table * SECTOR + a.ArrayBytes() <= n * SECTOR && b.table * SECTOR + b.ArrayBytes() <= n * SECTOR
    ensures a.last < n
  {
    SizesBound(a);
    hide SizesOk;
    var areas := Areas(a, b, n);
    assert areas[2].hi <= areas[3].lo && areas[3].hi <= areas[4].lo && areas[4].hi <= areas[5].lo;
    assert areas[3].lo < areas[3].hi && areas[4].lo < areas[4].hi;
  }

  /** The gate, exactly: it accepts a disk and reports its root extent if and only if the disk holds
      what it should. */
  lemma {:induction false} GateExactly(media: seq<Byte>, id: Identity, layoutBytes: nat, expectedMedia: nat, e: Extent)
    ensures Gate(media, id, layoutBytes, expectedMedia) == Some(e) <==>
            GoodDisk(media, id, layoutBytes, expectedMedia, e)
  {
    hide MbrOk;
    hide ProtectiveMbr;
    hide GptHeader;
    hide RootExtent;
    hide ReadHeader;
    hide ReadArray;
    hide GoodRoot;
    hide Layout;
    hide Geometry;
    hide Decode;
    hide SizesOk;
    if ArgsOk(layoutBytes, expectedMedia) && |media| == expectedMedia {
      var n := layoutBytes / SECTOR;
      assert ReadAt(media, SECTOR, 0) == Some(media[..SECTOR]);
      MbrBytes(media[..SECTOR], n);
      TablesExactly(media, id, n, e);
    }
  }

  lemma TablesExactly(media: seq<Byte>, id: Identity, n: nat, e: Extent)
    requires n >= 68 && n * SECTOR <= |media| <= INT64_MAX
    ensures var h, g := media[512..1024], media[(n - 1) * 512..n * 512];
            var a, b := Decode(h), Decode(g);
            var t := Tables(media, id, n);
            (t.Some? && RootExtent(media, id, t.value.0, t.value.2) == Some(e))
            <==> (&& GptHeader(h, 1, n - 1, id.disk) && GptHeader(g, n - 1, 1, id.disk) && Layout(a, b, n)
                  && a.arrayCrc == b.arrayCrc && GoodRoot(media, id, a, b, e))
  {
    hide GptHeader;
    hide RootExtent;
    hide ReadHeader;
    hide ReadArray;
    hide GoodRoot;
    hide Layout;
    hide Geometry;
    var h, g := media[512..1024], media[(n - 1) * 512..n * 512];
    var a, b := Decode(h), Decode(g);
    HeaderBytes(media, 1, n);
    HeaderBytes(media, n - 1, n);
    LayoutMeans(a, b, n);
    HeaderNames(h, 1, a);
    HeaderNames(g, n - 1, b);
    LayoutFacts(a, b, n);
    if Layout(a, b, n) && a.arrayCrc == b.arrayCrc { RootExactly(media, id, a, b, n, e); }
  }

  lemma HeaderNames(b: seq<Byte>, lba: nat, h: Gpt)
    requires |b| == SECTOR && h == Decode(b)
    ensures forall other, disk :: GptHeader(b, lba, other, disk) <==>
              GptHeader(b, lba, h.backup, h.guid) && other == h.backup && disk == h.guid
  {
    hide FromLe;
    hide Crc;
  }

  lemma LayoutFacts(a: Gpt, b: Gpt, n: nat)
    requires n >= 68
    ensures Layout(a, b, n) ==> a.backup == n - 1 && b.backup == 1 && SizesOk(a) && SizesOk(b)
    ensures Geometry(a, 1, n) ==> SizesOk(a)
  {
    hide SizesOk;
    hide Ordered;
    hide Words.Pow2;
    SizesMean(a);
    SizesMean(b);
    if Layout(a, b, n) {
      var k: nat :| a.entrySize == 128 * Words.Pow2(k);
      assert b.entrySize == 128 * Words.Pow2(k) && b.count * b.entrySize == a.count * a.entrySize;
    }
  }

  /** The bit trick's meaning: an accepted entry size is 128 times a power of two. */
  lemma {:induction false} PowerMeans(x: nat)
    ensures PowerOfTwo(x) <==> exists k: nat :: x == Words.Pow2(k)
  {
    if x > 1 && x % 2 == 0 {
      PowerMeans(x / 2);
      if k: nat :| x / 2 == Words.Pow2(k) { assert x == Words.Pow2(k + 1); }
      if k: nat :| x == Words.Pow2(k) { assert k > 0 && x / 2 == Words.Pow2(k - 1); }
    } else if x == 1 {
      assert x == Words.Pow2(0);
    } else if k: nat :| x == Words.Pow2(k) {
      assert k > 0 ==> x == 2 * Words.Pow2(k - 1);
    }
  }

  lemma AreasOrdered(a: Gpt, b: Gpt, sectors: nat)
    requires sectors >= 1 && Geometry(a, 1, sectors) && Geometry(b, sectors - 1, sectors)
    requires a.first == b.first && a.last == b.last && a.count == b.count && a.entrySize == b.entrySize
    ensures Ordered(Areas(a, b, sectors))
  {
    hide PowerOfTwo;
    SizesBound(a);
    SizesBound(b);
    hide SizesOk;
  }

  /** The superblock's block count times its block size is within the partition. */
  ghost predicate FileSystemFits(media: seq<Byte>, e: Extent) {
    && e.first <= e.last
    && ReadAt(media, 1024, e.first * SECTOR + 1024).Some?
    && var sb := ReadAt(media, 1024, e.first * SECTOR + 1024).value;
       |sb| == 1024 && 0 < Blocks(sb) * BlockSize(sb) <= (e.last - e.first + 1) * SECTOR
  }

  lemma RootFits(media: seq<Byte>, id: Identity, a: Gpt, pa: seq<Byte>)
    requires 128 <= a.entrySize <= |pa| && RootExtent(media, id, a, pa).Some?
    ensures var e := RootExtent(media, id, a, pa).value;
            a.first <= 2048 == e.first <= e.last <= a.last && FileSystemFits(media, e)
  {
    hide LabelOk;
    hide AllZero;
    hide Blocks;
    hide BlockSize;
    hide FromLe;
    var e := RootExtent(media, id, a, pa).value;
    var sb := ReadAt(media, 1024, e.first * SECTOR + 1024).value;
    BlocksFit(Blocks(sb), BlockSize(sb), (e.last - e.first + 1) * SECTOR);
  }

  lemma BlocksFit(blocks: nat, size: nat, room: nat)
    requires size > 0 && 0 < blocks <= room / size
    ensures 0 < blocks * size <= room
  {
    Arith.DivMod(room, size);
    Arith.MulNonNegative(size, room / size - blocks);
    Arith.MulNonNegative(blocks - 1, size);
    assert size * (room / size) == size * blocks + size * (room / size - blocks);
    assert blocks * size == size + (blocks - 1) * size;
  }

  // --------------------------------------------------------------------------
  // Changed bytes: any change within four consecutive ones

  lemma ReadChanged(media: seq<Byte>, media': seq<Byte>, p: nat, n: nat, off: nat)
    requires DifferWithin(media, media', p)
    ensures ReadAt(media, n, off).Some? <==> ReadAt(media', n, off).Some?
    ensures ReadAt(media, n, off).Some? ==>
              var s, t := ReadAt(media, n, off).value, ReadAt(media', n, off).value;
              && |s| == |t| == n
              && (s == t || DifferWithin(s, t, if p < off then 0 else p - off))
              && (forall k :: 0 <= k < n ==> s[k] == media[off + k] && t[k] == media'[off + k])
  {
  }

  /** A change inside an array the header vouches for breaks its CRC. */
  lemma ArrayChange(media: seq<Byte>, media': seq<Byte>, h: Gpt, p: nat, q: nat)
    requires DifferWithin(media, media', p) && ReadArray(media, h).Some?
    requires h.table * SECTOR <= q < h.table * SECTOR + h.ArrayBytes()
    requires q < |media| && media[q] != media'[q]
    ensures ReadArray(media', h).None?
  {
    hide Crc;
    var off, n := h.table * SECTOR, h.ArrayBytes();
    ReadChanged(media, media', p, n, off);
    var s, t := ReadAt(media, n, off).value, ReadAt(media', n, off).value;
    assert s[q - off] != t[q - off];
    BurstChangesCrc(s, t, if p < off then 0 else p - off);
  }

  lemma NumDiffers(s: seq<Byte>, t: seq<Byte>, at: nat, width: nat)
    requires |s| == |t| && at + width <= |s|
    ensures Num(s, at, width) == Num(t, at, width) <==> s[at..at + width] == t[at..at + width]
  {
    FromLeRoundTrip(s[at..at + width]);
    FromLeRoundTrip(t[at..at + width]);
  }

  /** A change in the covered bytes of an intact header, its size field aside, breaks it: a change of
      the reserved field shows by itself, a change of the stored CRC leaves the rest as it was, and
      any other change changes the CRC. */
  lemma {:induction false} HeaderChange(b: seq<Byte>, c: seq<Byte>, p: nat, q: nat)
    requires |b| == SECTOR && DifferWithin(b, c, p) && HeaderIntact(b)
    requires q < HeaderSize(b) && b[q] != c[q] && b[12..16] == c[12..16]
    ensures !HeaderIntact(c)
  {
    hide Crc;
    hide FromLe;
    NumDiffers(b, c, 12, 4);
    NumDiffers(b, c, 16, 4);
    NumDiffers(b, c, 20, 4);
    var n := HeaderSize(b);
    if b[20..24] == c[20..24] {
      if b[16..20] == c[16..20] {
        CoveredChange(b, c, p, q, n);
        BurstChangesCrc(Covered(b, n), Covered(c, n), p);
      } else {
        CoveredSame(b, c, p, n);
      }
    }
  }

  lemma CoveredChange(b: seq<Byte>, c: seq<Byte>, p: nat, q: nat, n: nat)
    requires |b| == SECTOR && DifferWithin(b, c, p) && 20 <= n <= SECTOR && q < n && b[q] != c[q]
    requires b[16..20] == c[16..20]
    ensures DifferWithin(Covered(b, n), Covered(c, n), p)
  {
    var s, t := Covered(b, n), Covered(c, n);
    assert forall k :: 0 <= k < n ==> s[k] == if 16 <= k < 20 then 0 else b[k];
    assert forall k :: 0 <= k < n ==> t[k] == if 16 <= k < 20 then 0 else c[k];
    assert forall k :: 16 <= k < 20 ==> b[16..20][k - 16] == b[k] && c[16..20][k - 16] == c[k];
    assert s[q] != t[q];
  }

  lemma CoveredSame(b: seq<Byte>, c: seq<Byte>, p: nat, n: nat)
    requires |b| == SECTOR && DifferWithin(b, c, p) && 24 <= n <= SECTOR
    requires b[16..20] != c[16..20] && b[12..16] == c[12..16] && b[20..24] == c[20..24]
    ensures Covered(b, n) == Covered(c, n)
  {
    var i :| 0 <= i < 4 && b[16..20][i] != c[16..20][i];
    assert b[16 + i] != c[16 + i];
    forall k | 0 <= k < n && !(16 <= k < 20) ensures b[k] == c[k] {
      if 12 <= k < 16 { assert b[12..16][k - 12] == c[12..16][k - 12]; }
      if 20 <= k < 24 { assert b[20..24][k - 20] == c[20..24][k - 20]; }
    }
    assert b[..16] == c[..16] && b[20..n] == c[20..n];
  }

  /** A header whose covered bytes are read the same is decoded the same. */
  lemma SameHeader(b: seq<Byte>, c: seq<Byte>)
    requires |b| == |c| == SECTOR && HeaderIntact(b)
    requires HeaderSize(b) <= SECTOR && b[..HeaderSize(b)] == c[..HeaderSize(b)]
    ensures HeaderIntact(c) && Decode(c) == Decode(b)
  {
    hide Crc;
    hide Num;
    var n := HeaderSize(b);
    SamePart(b, c, n, 0, 92);
    SameDecode(b, c);
    SamePart(b, c, n, 0, 16);
    SamePart(b, c, n, 20, n);
    SamePart(b, c, n, 0, 8);
  }

  lemma SameDecode(b: seq<Byte>, c: seq<Byte>)
    requires |b| == |c| == SECTOR && b[..92] == c[..92]
    ensures Num(b, 8, 4) == Num(c, 8, 4) && HeaderSize(b) == HeaderSize(c) && Num(b, 16, 4) == Num(c, 16, 4)
    ensures Num(b, 20, 4) == Num(c, 20, 4) && Decode(b) == Decode(c)
  {
    hide Num;
    SameNum(b, c, 92, 8, 4);
    SameNum(b, c, 92, 12, 4);
    SameNum(b, c, 92, 16, 4);
    SameNum(b, c, 92, 20, 4);
    SameNum(b, c, 92, 24, 8);
    SameNum(b, c, 92, 32, 8);
    SameNum(b, c, 92, 40, 8);
    SameNum(b, c, 92, 48, 8);
    SameNum(b, c, 92, 72, 8);
    SameNum(b, c, 92, 80, 4);
    SameNum(b, c, 92, 84, 4);
    SameNum(b, c, 92, 88, 4);
    SameNum(b, c, 92, 56, 16);
  }

  lemma SamePart(b: seq<Byte>, c: seq<Byte>, n: nat, lo: nat, hi: nat)
    requires lo <= hi <= n <= |b| && n <= |c| && b[..n] == c[..n]
    ensures b[lo..hi] == c[lo..hi] && (lo == 0 ==> b[..hi] == c[..hi])
  {
    assert b[lo..hi] == b[..n][lo..hi];
    assert c[lo..hi] == c[..n][lo..hi];
  }

  lemma SameNum(b: seq<Byte>, c: seq<Byte>, n: nat, at: nat, width: nat)
    requires at + width <= n <= |b| && n <= |c| && b[..n] == c[..n]
    ensures b[at..at + width] == c[at..at + width] && Num(b, at, width) == Num(c, at, width)
  {
    SamePart(b, c, n, at, at + width);
  }

  /** Position q is covered by the header CRC of that sector. */
  ghost predicate HeaderCovers(media: seq<Byte>, lba: nat, q: nat) {
    var b := ReadAt(media, SECTOR, lba * SECTOR);
    b.Some? && |b.value| == SECTOR && 0 <= q - lba * SECTOR < HeaderSize(b.value)
  }

  /** The header's size field is the same on both disks. */
  ghost predicate SizeKept(media: seq<Byte>, media': seq<Byte>, lba: nat) {
    forall k :: lba * SECTOR + 12 <= k < lba * SECTOR + 16 && k < |media| && k < |media'| ==> media[k] == media'[k]
  }

  /** A header is read the same, or refused, as the changes miss its covered bytes or not. */
  lemma {:induction false} HeaderAfter(media: seq<Byte>, media': seq<Byte>, p: nat, lba: nat, sectors: nat)
    requires sectors >= 1 && DifferWithin(media, media', p) && ReadHeader(media, lba, sectors).Some?
    requires SizeKept(media, media', lba)
    ensures if exists q :: 0 <= q < |media| && media[q] != media'[q] && HeaderCovers(media, lba, q) then
              ReadHeader(media', lba, sectors).None?
            else ReadHeader(media', lba, sectors) == ReadHeader(media, lba, sectors)
  {
    hide HeaderIntact;
    hide Geometry;
    hide FromLe;
    hide Decode;
    var off := lba * SECTOR;
    ReadChanged(media, media', p, SECTOR, off);
    var b, c := ReadAt(media, SECTOR, off).value, ReadAt(media', SECTOR, off).value;
    HeaderSizeBound(b);
    if q :| 0 <= q < |media| && media[q] != media'[q] && HeaderCovers(media, lba, q) {
      assert b[q - off] != c[q - off];
      forall k | 12 <= k < 16 ensures b[k] == c[k] {
        assert media[off + k] == media'[off + k];
      }
      assert b[12..16] == c[12..16];
      HeaderChange(b, c, if p < off then 0 else p - off, q - off);
    } else {
      forall k | 0 <= k < SECTOR && k < HeaderSize(b) ensures b[k] == c[k] {
        assert HeaderCovers(media, lba, off + k);
      }
      assert b[..HeaderSize(b)] == c[..HeaderSize(b)];
      SameHeader(b, c);
    }
  }

  lemma HeaderSizeBound(b: seq<Byte>)
    requires |b| == SECTOR && HeaderIntact(b)
    ensures HeaderSize(b) <= SECTOR
  {
    hide Crc;
  }

  /** The bytes of an accepted disk the CRCs guard. */
  ghost predicate Guarded(media: seq<Byte>, id: Identity, sectors: nat, q: nat)
    requires sectors >= 1 && Tables(media, id, sectors).Some?
  {
    var (a, b, _) := Tables(media, id, sectors).value;
    || a.table * SECTOR <= q < a.table * SECTOR + a.ArrayBytes()
    || b.table * SECTOR <= q < b.table * SECTOR + b.ArrayBytes()
    || HeaderCovers(media, 1, q)
    || HeaderCovers(media, sectors - 1, q)
  }

  /** Any change within four consecutive bytes of an accepted disk is refused if it touches a guarded
      byte and leaves the headers' size fields alone. */
  lemma {:induction false} BurstRejected(media: seq<Byte>, media': seq<Byte>, id: Identity,
                                         layoutBytes: nat, expectedMedia: nat, p: nat, q: nat)
    requires Gate(media, id, layoutBytes, expectedMedia).Some? && DifferWithin(media, media', p)
    requires layoutBytes / SECTOR >= 1 && Tables(media, id, layoutBytes / SECTOR).Some?
    requires q < |media| && media[q] != media'[q] && Guarded(media, id, layoutBytes / SECTOR, q)
    requires SizeKept(media, media', 1) && SizeKept(media, media', layoutBytes / SECTOR - 1)
    ensures Gate(media', id, layoutBytes, expectedMedia).None?
  {
    hide Tables;
    hide RootExtent;
    hide MbrOk;
    hide Guarded;
    TablesRejected(media, media', id, layoutBytes / SECTOR, p, q);
  }

  lemma TablesRejected(media: seq<Byte>, media': seq<Byte>, id: Identity, sectors: nat, p: nat, q: nat)
    requires sectors >= 1 && DifferWithin(media, media', p) && Tables(media, id, sectors).Some?
    requires q < |media| && media[q] != media'[q] && Guarded(media, id, sectors, q)
    requires SizeKept(media, media', 1) && SizeKept(media, media', sectors - 1)
    ensures Tables(media', id, sectors).None?
  {
    hide ReadHeader;
    hide ReadArray;
    hide Geometry;
    hide HeaderCovers;
    hide SizeKept;
    var (a, b, pa) := Tables(media, id, sectors).value;
    HeaderAfter(media, media', p, 1, sectors);
    HeaderAfter(media, media', p, sectors - 1, sectors);
    if a.table * SECTOR <= q < a.table * SECTOR + a.ArrayBytes() {
      ArrayChange(media, media', a, p, q);
    } else if b.table * SECTOR <= q < b.table * SECTOR + b.ArrayBytes() {
      ArrayChange(media, media', b, p, q);
    }
  }

  /** In particular any single guarded byte outside the size fields. */
  lemma {:induction false} OneByteRejected(media: seq<Byte>, media': seq<Byte>, id: Identity,
                                           layoutBytes: nat, expectedMedia: nat, q: nat)
    requires Gate(media, id, layoutBytes, expectedMedia).Some? && DifferAt(media, media', q)
    requires layoutBytes / SECTOR >= 1 && Tables(media, id, layoutBytes / SECTOR).Some?
    requires Guarded(media, id, layoutBytes / SECTOR, q)
    requires !(12 <= q - SECTOR < 16) && !(12 <= q - (layoutBytes / SECTOR - 1) * SECTOR < 16)
    ensures Gate(media', id, layoutBytes, expectedMedia).None?
  {
    hide Gate;
    hide Guarded;
    hide Tables;
    BurstRejected(media, media', id, layoutBytes, expectedMedia, q, q);
  }

  // --------------------------------------------------------------------------
  // The program. Values typed U64 are the ones it computes in uint64_t; each assignment is a proof
  // that the computation stays in range.

  /** What one pread call does. */
  datatype Pread = Interrupted | Failed | Got(bytes: nat)

  class Disk {
    const media: seq<Byte>
    var script: seq<Pread>       // coming pread results; after them every read is complete

    constructor (m: seq<Byte>, results: seq<Pread>)
      requires |m| <= INT64_MAX
      ensures media == m && script == results
    {
      media, script := m, results;
    }

    /** No read error ahead: reads may be interrupted or short, but not fail or hit the end. */
    ghost predicate Healthy()
      reads this
    {
      forall i :: 0 <= i < |script| ==> script[i] != Failed && script[i] != Got(0)
    }

    /** However the reads are cut up, success means exactly the bytes asked for. */
    method Read(n: U64, off: U64) returns (r: Option<seq<Byte>>)
      requires |media| <= INT64_MAX
      modifies this
      ensures r.Some? ==> r == ReadAt(media, n, off)
      ensures old(Healthy()) ==> Healthy() && r == ReadAt(media, n, off)
    {
      if off > |media| || n > |media| - off || off > INT64_MAX { return None; }
      var got: seq<Byte> := [];
      var at: U64, left: U64 := off, n;
      while left > 0
        invariant at == off + |got| && left == n - |got| && |got| <= n
        invariant got == media[off..off + |got|]
        invariant old(Healthy()) ==> Healthy()
        decreases |script|, left
      {
        var k := left;
        if script != [] {
          var result := script[0];
          script := script[1..];
          if result == Interrupted { continue; }
          if result == Failed || result == Got(0) { return None; }
          k := if result.bytes < left then result.bytes else left;
        }
        got := got + media[at..at + k];
        at, left := at + k, left - k;
      }
      return Some(got);
    }

    method CheckHeader(lba: U64, sectors: U64) returns (r: Option<Gpt>)
      requires |media| <= INT64_MAX && 1 <= sectors && lba < sectors && sectors * SECTOR <= |media|
      modifies this
      ensures r.Some? ==> r == ReadHeader(media, lba, sectors)
      ensures old(Healthy()) ==> Healthy() && r == ReadHeader(media, lba, sectors)
    {
      hide Crc;
      hide PowerOfTwo;
      hide FromLe;
      var off: U64 := lba * SECTOR;
      var read := Read(SECTOR, off);
      if read.None? { return None; }
      var b := read.value;
      if b[..8] != EFI_PART || Num(b, 8, 4) != 0x10000 || Num(b, 20, 4) != 0 { return None; }
      var n := Num(b, 12, 4);
      if n < 92 || n > SECTOR { return None; }
      var copy := b[..16] + [0, 0, 0, 0] + b[20..n];
      var crc := ComputeCrc(copy);
      if crc != Num(b, 16, 4) { return None; }
      var h := Decode(b);
      DecodeRange(b);
      if h.current != lba || h.backup >= sectors || h.first > h.last ||
         h.first < 3 || h.last >= sectors - 1 || !SizesOk(h)
      {
        return None;
      }
      SizesBound(h);
      var bytes: U64 := h.count * h.entrySize;
      var arraySectors: U64 := (bytes + SECTOR - 1) / SECTOR;
      if h.table < 2 || h.table >= sectors { return None; }
      var room: U64 := sectors - h.table;
      if arraySectors > room { return None; }
      var end: U64 := h.table + arraySectors;
      if lba == 1 {
        if h.backup != sectors - 1 || h.table != 2 || end > h.first { return None; }
      } else if h.backup != 1 || h.table <= h.last || end != lba {
        return None;
      }
      return Some(h);
    }

    method CheckArray(h: Gpt, sectors: U64) returns (r: Option<seq<Byte>>)
      requires |media| <= INT64_MAX && sectors * SECTOR <= |media| && SizesOk(h) && h.table < sectors
      modifies this
      ensures r.Some? ==> r == ReadArray(media, h)
      ensures old(Healthy()) ==> Healthy() && r == ReadArray(media, h)
    {
      hide Crc;
      SizesBound(h);
      var n: U64 := h.count * h.entrySize;
      var off: U64 := h.table * SECTOR;
      var read := Read(n, off);
      if read.None? { return None; }
      var crc := ComputeCrc(read.value);
      if crc != h.arrayCrc { return None; }
      return read;
    }

    /** The partition entry, the empty entries after it, and the ext4 superblock. */
    method CheckRoot(id: Identity, a: Gpt, pa: seq<Byte>, sectors: U64) returns (r: Option<Extent>)
      requires |media| <= INT64_MAX && sectors * SECTOR <= |media| && a.last < sectors
      requires SizesOk(a) && |pa| == a.ArrayBytes() && 128 <= a.entrySize <= |pa| && a.count >= 1
      modifies this
      ensures r.Some? ==> r == RootExtent(media, id, a, pa)
      ensures old(Healthy()) ==> Healthy() && r == RootExtent(media, id, a, pa)
    {
      hide FromLe;
      hide SizesOk;
      hide BlockSize;
      hide Blocks;
      hide LabelOk;
      hide AllZero;
      hide Ext4Ok;
      if pa[..16] != LINUX_FS || pa[16..32] != id.part { return None; }
      SizesBound(a);
      var empty := OthersEmpty(pa, a.entrySize, a.count);
      if !empty { return None; }
      var first: nat, last: nat := Num(pa, 32, 8), Num(pa, 40, 8);
      if first != 2048 || first < a.first || first > last || last > a.last || Num(pa, 48, 8) != 0 { return None; }
      var labelled := CheckLabel(pa);
      if !labelled { return None; }
      assert RootOk(pa, a, id);
      var off: U64 := first * SECTOR + 1024;
      var read := Read(1024, off);
      if read.None? { return None; }
      var partBytes: U64 := (last - first + 1) * SECTOR;
      var ok := CheckSuperblock(read.value, id, partBytes);
      if !ok { return None; }
      return Some(Extent(first, last));
    }

    /** The whole program on a disk whose reads may be short, interrupted or failing. It accepts
        only what the gate accepts, and on a healthy disk exactly that. */
    method RunGate(id: Identity, layoutBytes: U64, expectedMedia: U64) returns (r: Option<Extent>)
      requires |media| <= INT64_MAX
      modifies this
      ensures r.Some? ==> r == Gate(media, id, layoutBytes, expectedMedia)
      ensures old(Healthy()) ==> r == Gate(media, id, layoutBytes, expectedMedia)
    {
      hide RootExtent;
      hide ReadArray;
      hide ReadHeader;
      hide FromLe;
      if layoutBytes % SECTOR != 0 || expectedMedia % SECTOR != 0 || layoutBytes > expectedMedia ||
         layoutBytes < 68 * SECTOR || expectedMedia > INT64_MAX
      {
        return None;
      }
      if |media| != expectedMedia { return None; }
      var sectors: U64 := layoutBytes / SECTOR;
      var mbr := Read(SECTOR, 0);
      if mbr.None? { return None; }
      var m := mbr.value;
      var z := IsZero(m[462..510]);
      if m[510] != 0x55 || m[511] != 0xaa || m[450] != 0xee || m[446] != 0 || Num(m, 454, 4) != 1 ||
         Num(m, 458, 4) != (if sectors - 1 > UINT32_MAX then UINT32_MAX else sectors - 1) || !z
      {
        return None;
      }
      var pa, a := CheckTables(id, sectors);
      if pa.None? { return None; }
      r := CheckRoot(id, a, pa.value, sectors);
    }

    method CheckTables(id: Identity, sectors: U64) returns (pa: Option<seq<Byte>>, a: Gpt)
      requires |media| <= INT64_MAX && 2 <= sectors && sectors * SECTOR <= |media|
      modifies this
      ensures pa.Some? ==>
                && Tables(media, id, sectors).Some? && Tables(media, id, sectors).value.0 == a
                && Tables(media, id, sectors).value.2 == pa.value
                && SizesOk(a) && a.count >= 1 && a.last < sectors && |pa.value| == a.ArrayBytes()
                   && 128 <= a.entrySize <= |pa.value|
      ensures old(Healthy()) ==> Healthy() && (pa.Some? <==> Tables(media, id, sectors).Some?)
    {
      hide ReadHeader;
      hide ReadArray;
      hide PowerOfTwo;
      a := Gpt(0, 0, 0, 0, 0, 0, 0, 0, []);
      pa := None;
      var ha := CheckHeader(1, sectors);
      if ha.None? { return; }
      var hb := CheckHeader(sectors - 1, sectors);
      if hb.None? { return; }
      if !CopiesAgree(ha.value, hb.value, id) { return; }
      a := ha.value;
      SizesBound(a);
      var p := CheckArray(a, sectors);
      if p.None? { return; }
      var q := CheckArray(hb.value, sectors);
      if q.None? { return; }
      if p.value != q.value { return; }
      pa := p;
    }
  }

  /** Entries 1 to count - 1 are all zero. */
  method OthersEmpty(pa: seq<Byte>, size: nat, count: nat) returns (r: bool)
    requires |pa| == count * size && size > 0 && count >= 1 && size <= |pa|
    ensures r == AllZero(pa[size..])
  {
    hide AllZero;
    var i: nat := 1;
    EntriesFrom(pa, size, count, 1);
    while i < count
      invariant 1 <= i <= count && i * size <= |pa|
      invariant AllZero(pa[size..]) <==> AllZero(pa[i * size..])
    {
      EntriesFrom(pa, size, count, i);
      var z := IsZero(pa[i * size..i * size + size]);
      if !z { return false; }
      i := i + 1;
    }
    EntriesEnd(pa, size, count, i);
    return true;
  }

  method CheckLabel(pa: seq<Byte>) returns (r: bool)
    requires |pa| >= 128
    ensures r == LabelOk(pa)
  {
    hide FromLe;
    var k := 0;
    while k < 36
      invariant 0 <= k <= 36
      invariant forall j :: 0 <= j < k ==> Num(pa, 56 + j * 2, 2) == LabelUnit(j)
    {
      if Num(pa, 56 + k * 2, 2) != LabelUnit(k) { return false; }
      k := k + 1;
    }
    return true;
  }

  /** The superblock checks, block arithmetic in 64 bits. */
  method CheckSuperblock(sb: seq<Byte>, id: Identity, partBytes: U64) returns (r: bool)
    requires |sb| == 1024
    ensures r == Ext4Ok(sb, id, partBytes)
  {
    hide FromLe;
    if Num(sb, 56, 2) != 0xef53 || Num(sb, 76, 4) != 1 || sb[104..120] != id.fs { return false; }
    if sb[120..136] != LABEL + Zeros(7) { return false; }
    if Num(sb, 58, 2) != 1 || (Num(sb, 96, 4) / 4) % 2 != 0 { return false; }
    var shift := Num(sb, 24, 4);
    if shift > 6 { return false; }
    var blockSize: U64 := BlockSize(sb);
    BlocksRange(sb);
    var blocks: U64 := Num(sb, 4, 4);
    if (Num(sb, 96, 4) / 0x80) % 2 == 1 {
      blocks := blocks + Num(sb, 0x150, 4) * 0x1_0000_0000;
    }
    return blocks != 0 && blocks <= partBytes / blockSize;
  }

  lemma BlocksRange(sb: seq<Byte>)
    requires |sb| == 1024
    ensures Num(sb, 4, 4) < 0x1_0000_0000 && Num(sb, 0x150, 4) < 0x1_0000_0000
  {
    Limits();
    hide FromLe;
    FromLeRoundTrip(sb[4..8]);
    FromLeRoundTrip(sb[0x150..0x154]);
  }

  /** Peeling entry i off the tail of the array. */
  lemma EntriesFrom(pa: seq<Byte>, size: nat, count: nat, i: nat)
    requires |pa| == count * size && 1 <= i && size > 0 && count >= 1
    ensures i < count ==>
              && i * size + size == (i + 1) * size <= |pa|
              && (AllZero(pa[i * size..]) <==> AllZero(pa[i * size..i * size + size]) && AllZero(pa[(i + 1) * size..]))
    ensures 1 * size == size <= |pa|
  {
    assert 1 * size == size;
    Arith.MulNonNegative(count - 1, size);
    assert count * size == size + (count - 1) * size;
    if i < count {
      Arith.MulNonNegative(count - (i + 1), size);
      assert (i + 1) * size == i * size + size;
      assert count * size == (i + 1) * size + (count - (i + 1)) * size;
      var t := pa[i * size..];
      assert t == pa[i * size..i * size + size] + pa[(i + 1) * size..];
    }
  }

  lemma EntriesEnd(pa: seq<Byte>, size: nat, count: nat, i: nat)
    requires |pa| == count * size && i == count
    ensures i * size == |pa| && AllZero(pa[i * size..])
  {
    assert pa[i * size..] == [];
  }

  /** Header fields are 64-bit numbers. */
  lemma DecodeRange(b: seq<Byte>)
    requires |b| == SECTOR
    ensures var h := Decode(b);
            h.current < 0x1_0000_0000_0000_0000 && h.first < 0x1_0000_0000_0000_0000
                && h.last < 0x1_0000_0000_0000_0000 && h.table < 0x1_0000_0000_0000_0000
  {
    Limit8();
    hide FromLe;
    FromLeRoundTrip(b[24..32]);
    FromLeRoundTrip(b[40..48]);
    FromLeRoundTrip(b[48..56]);
    FromLeRoundTrip(b[72..80]);
  }

  lemma Limit8()
    ensures Limit(8) == 0x1_0000_0000_0000_0000
  {
    Limits();
    assert Limit(6) == 0x1_0000_0000_0000;
  }
}
