/** A disk the USB-root gate lets through, for any identity asked for. */
module UsbRootDisk {
  import opened Wrappers
  import opened Bytes
  import opened Words
  import opened Crc32
  import opened UsbRootGate

  // Sector 0: MBR; 1 and 2: primary header and array; 2048 to 2051: the root partition;
  // 2052 and 2053: backup array and header.
  const SECTORS := 2054
  const LAYOUT_BYTES := 1051648

  /** Piece k holds the number v at its offset. */
  lemma NumberAt(pieces: seq<seq<Byte>>, k: nat, v: nat, width: nat)
    requires k < |pieces| && pieces[k] == Le(v, width) && v < Limit(width)
    ensures var all, at := Join(pieces, |pieces|), |Join(pieces, k)|;
            at + width <= |all| && Num(all, at, width) == v
  {
    hide Join;
    hide Le;
    hide FromLe;
    PieceAt(pieces, k, 0, width);
    assert pieces[k][0..width] == Le(v, width);
    LeRoundTrip(v, width);
  }

  lemma ZeroAt(pieces: seq<seq<Byte>>, k: nat, i: nat, width: nat)
    requires k < |pieces| && AllZero(pieces[k]) && i + width <= |pieces[k]|
    ensures var all, at := Join(pieces, |pieces|), |Join(pieces, k)|;
            at + i + width <= |all| && Num(all, at + i, width) == 0
  {
    hide Join;
    hide FromLe;
    PieceAt(pieces, k, i, i + width);
    ZeroNumber(pieces[k][i..i + width]);
  }

  // --------------------------------------------------------------------------
  // The protective MBR

  function MbrPieces(): seq<seq<Byte>> {
    [Zeros(450), [0xee], Zeros(3), Le(1, 4), Le(2053, 4), Zeros(48), [0x55, 0xaa]]
  }

  function Mbr(): seq<Byte> {
    Join(MbrPieces(), 7)
  }

  lemma MbrOffsets()
    ensures var p := MbrPieces();
            && |Join(p, 0)| == 0 && |Join(p, 1)| == 450 && |Join(p, 3)| == 454 && |Join(p, 4)| == 458
            && |Join(p, 5)| == 462 && |Join(p, 6)| == 510 && |Join(p, 7)| == 512
  {
    hide Le;
    var p := MbrPieces();
    assert |Join(p, 0)| == 0 && |Join(p, 1)| == 450 && |Join(p, 2)| == 451;
    assert |Join(p, 3)| == 454 && |Join(p, 4)| == 458 && |Join(p, 5)| == 462;
    assert |Join(p, 6)| == 510 && |Join(p, 7)| == 512;
  }

  lemma MbrAccepted()
    ensures |Mbr()| == SECTOR && MbrOk(Mbr(), SECTORS)
  {
    hide Le;
    hide Join;
    hide Num;
    var p, m := MbrPieces(), Mbr();
    MbrOffsets();
    Limits();
    NumberAt(p, 3, 1, 4);
    NumberAt(p, 4, 2053, 4);
    PieceAt(p, 0, 446, 447);
    PieceAt(p, 1, 0, 1);
    PieceAt(p, 5, 0, 48);
    PieceAt(p, 6, 0, 2);
    assert m[446] == m[446..447][0] == Zeros(450)[446..447][0] == 0;
    assert m[450] == m[450..451][0] == 0xee;
    assert m[510] == m[510..512][0] == 0x55 && m[511] == m[510..512][1] == 0xaa;
    assert m[462..510] == Zeros(48)[0..48];
    assert AllZero(m[462..510]);
  }

  // --------------------------------------------------------------------------
  // The partition array: one entry

  /** The first n code units of the label. */
  function LabelBytes(n: nat): (s: seq<Byte>)
    ensures |s| == 2 * n
  {
    if n == 0 then [] else LabelBytes(n - 1) + Le(LabelUnit(n - 1), 2)
  }

  lemma {:induction false} LabelUnitAt(n: nat, i: nat)
    requires i < n
    ensures LabelBytes(n)[2 * i..2 * i + 2] == Le(LabelUnit(i), 2)
  {
    if i < n - 1 {
      LabelUnitAt(n - 1, i);
      assert LabelBytes(n)[2 * i..2 * i + 2] == LabelBytes(n - 1)[2 * i..2 * i + 2];
    }
  }

  function EntryPieces(id: Identity): seq<seq<Byte>> {
    [LINUX_FS, id.part, Le(2048, 8), Le(2051, 8), Le(0, 8), LabelBytes(36)]
  }

  function Entry(id: Identity): seq<Byte> {
    Join(EntryPieces(id), 6)
  }

  /** Identifiers are sixteen bytes long. */
  ghost predicate Proper(id: Identity) {
    |id.disk| == 16 && |id.part| == 16 && |id.fs| == 16
  }

  lemma EntryOffsets(id: Identity)
    requires Proper(id)
    ensures var p := EntryPieces(id);
            && |Join(p, 0)| == 0 && |Join(p, 1)| == 16 && |Join(p, 2)| == 32 && |Join(p, 3)| == 40
            && |Join(p, 4)| == 48 && |Join(p, 5)| == 56 && |Join(p, 6)| == 128
  {
    hide Le;
    hide LabelBytes;
    var p := EntryPieces(id);
    assert |Join(p, 0)| == 0 && |Join(p, 1)| == 16 && |Join(p, 2)| == 32;
    assert |Join(p, 3)| == 40 && |Join(p, 4)| == 48 && |Join(p, 5)| == 56;
  }

  lemma EntryFields(id: Identity)
    requires Proper(id)
    ensures var e := Entry(id);
            && |e| == 128 && e[..16] == LINUX_FS && e[16..32] == id.part && LabelOk(e)
            && Num(e, 32, 8) == 2048 && Num(e, 40, 8) == 2051 && Num(e, 48, 8) == 0
  {
    hide Le;
    hide LabelBytes;
    hide Join;
    hide Num;
    var p, e := EntryPieces(id), Entry(id);
    EntryOffsets(id);
    Limit8();
    NumberAt(p, 2, 2048, 8);
    NumberAt(p, 3, 2051, 8);
    NumberAt(p, 4, 0, 8);
    PieceAt(p, 0, 0, 16);
    PieceAt(p, 1, 0, 16);
    assert e[..16] == e[0..16] == LINUX_FS[0..16] == LINUX_FS;
    assert id.part[0..16] == id.part;
    forall i | 0 <= i < 36 ensures Num(e, 56 + i * 2, 2) == LabelUnit(i) {
      LabelNumber(id, i);
    }
  }

  lemma LabelNumber(id: Identity, i: nat)
    requires Proper(id) && i < 36
    ensures |Entry(id)| == 128 && Num(Entry(id), 56 + i * 2, 2) == LabelUnit(i)
  {
    hide Le;
    hide Join;
    EntryOffsets(id);
    PieceAt(EntryPieces(id), 5, 2 * i, 2 * i + 2);
    LabelUnitAt(36, i);
    Limits();
    LeRoundTrip(LabelUnit(i), 2);
  }

  // --------------------------------------------------------------------------
  // A header

  const FRONT: seq<Byte> := EFI_PART + [0, 0, 1, 0] + [92, 0, 0, 0]

  function BackPieces(id: Identity, lba: nat, backup: nat, table: nat, arrayCrc: nat): seq<seq<Byte>> {
    [Le(0, 4), Le(lba, 8), Le(backup, 8), Le(3, 8), Le(2051, 8), id.disk, Le(table, 8), Le(1, 4), Le(128, 4),
     Le(arrayCrc, 4), Zeros(420)]
  }

  function Back(id: Identity, lba: nat, backup: nat, table: nat, arrayCrc: nat): seq<Byte> {
    Join(BackPieces(id, lba, backup, table, arrayCrc), 11)
  }

  function Header(crc: nat, back: seq<Byte>): (h: seq<Byte>)
    ensures |h| == 20 + |back|
  {
    FRONT + (Le(crc, 4) + back)
  }

  function Signed(back: seq<Byte>): seq<Byte>
    requires |back| == 492
  {
    Header(Crc(Covered(Header(0, back), 92)), back)
  }

  lemma BackOffsets(id: Identity, lba: nat, backup: nat, table: nat, arrayCrc: nat)
    requires Proper(id)
    ensures var p := BackPieces(id, lba, backup, table, arrayCrc);
            && |Join(p, 0)| == 0 && |Join(p, 1)| == 4 && |Join(p, 2)| == 12 && |Join(p, 3)| == 20
            && |Join(p, 4)| == 28 && |Join(p, 5)| == 36 && |Join(p, 6)| == 52 && |Join(p, 7)| == 60
            && |Join(p, 8)| == 64 && |Join(p, 9)| == 68 && |Join(p, 11)| == 492
  {
    hide Le;
    var p := BackPieces(id, lba, backup, table, arrayCrc);
    assert |Join(p, 0)| == 0 && |Join(p, 1)| == 4 && |Join(p, 2)| == 12;
    assert |Join(p, 3)| == 20 && |Join(p, 4)| == 28 && |Join(p, 5)| == 36;
    assert |Join(p, 6)| == 52 && |Join(p, 7)| == 60 && |Join(p, 8)| == 64;
    assert |Join(p, 9)| == 68 && |Join(p, 10)| == 72;
  }

  lemma BackFields(id: Identity, lba: nat, backup: nat, table: nat, arrayCrc: nat)
    requires Proper(id) && lba < SECTORS && backup < SECTORS && table < SECTORS && arrayCrc < 0x1_0000_0000
    ensures var b := Back(id, lba, backup, table, arrayCrc);
            && |b| == 492 && Num(b, 0, 4) == 0 && Num(b, 4, 8) == lba && Num(b, 12, 8) == backup
            && Num(b, 20, 8) == 3 && Num(b, 28, 8) == 2051 && b[36..52] == id.disk && Num(b, 52, 8) == table
            && Num(b, 60, 4) == 1 && Num(b, 64, 4) == 128 && Num(b, 68, 4) == arrayCrc
  {
    hide Le;
    hide Join;
    hide Num;
    var p := BackPieces(id, lba, backup, table, arrayCrc);
    BackOffsets(id, lba, backup, table, arrayCrc);
    Limits();
    Limit8();
    NumberAt(p, 0, 0, 4);
    NumberAt(p, 1, lba, 8);
    NumberAt(p, 2, backup, 8);
    NumberAt(p, 3, 3, 8);
    NumberAt(p, 4, 2051, 8);
    PieceAt(p, 5, 0, 16);
    assert id.disk[0..16] == id.disk;
    NumberAt(p, 6, table, 8);
    NumberAt(p, 7, 1, 4);
    NumberAt(p, 8, 128, 4);
    NumberAt(p, 9, arrayCrc, 4);
  }

  /** A field behind the CRC. */
  lemma Behind(crc: nat, back: seq<Byte>, at: nat, width: nat)
    requires |back| == 492 && at + width <= 492
    ensures var h := Header(crc, back);
            && |h| == SECTOR && h[20 + at..20 + at + width] == back[at..at + width]
            && Num(h, 20 + at, width) == Num(back, at, width)
  {
    hide Le;
    hide FromLe;
    var h := Header(crc, back);
    assert h == (FRONT + Le(crc, 4)) + back;
    assert h[20 + at..20 + at + width] == back[at..at + width];
  }

  lemma InFront(crc: nat, back: seq<Byte>)
    requires |back| == 492 && crc < 0x1_0000_0000
    ensures var h := Header(crc, back);
            && |h| == SECTOR && h[..16] == FRONT && h[..8] == EFI_PART
            && Num(h, 8, 4) == 0x10000 && Num(h, 12, 4) == 92 && Num(h, 16, 4) == crc
  {
    hide Le;
    hide FromLe;
    var h := Header(crc, back);
    Limits();
    LeRoundTrip(crc, 4);
    assert h[16..20] == Le(crc, 4);
    assert h[8..12] == [0, 0, 1, 0] && h[12..16] == [92, 0, 0, 0];
    FromLe4(0, 0, 1, 0);
    FromLe4(92, 0, 0, 0);
  }

  lemma CrcBound(s: seq<Byte>)
    ensures Crc(s) < 0x1_0000_0000
  {
    hide Run;
    hide Digits;
    hide Range;
    DigitsBound(Range(0, 32) - Run(s), 0, 32);
    Pow31();
  }

  lemma SignedIntact(back: seq<Byte>)
    requires |back| == 492 && Num(back, 0, 4) == 0
    ensures |Signed(back)| == SECTOR && HeaderIntact(Signed(back))
  {
    hide Crc;
    hide Le;
    hide FromLe;
    var crc := Crc(Covered(Header(0, back), 92));
    CrcBound(Covered(Header(0, back), 92));
    InFront(crc, back);
    InFront(0, back);
    Behind(crc, back, 0, 4);
    Behind(crc, back, 0, 72);
    Behind(0, back, 0, 72);
    assert Covered(Header(crc, back), 92) == Covered(Header(0, back), 92);
  }

  lemma SignedDecodes(id: Identity, lba: nat, backup: nat, table: nat, arrayCrc: nat)
    requires Proper(id) && lba < SECTORS && backup < SECTORS && table < SECTORS && arrayCrc < 0x1_0000_0000
    ensures var back := Back(id, lba, backup, table, arrayCrc);
            && |back| == 492 && |Signed(back)| == SECTOR && HeaderIntact(Signed(back))
            && Decode(Signed(back)) == Gpt(lba, backup, 3, 2051, table, 1, 128, arrayCrc, id.disk)
  {
    hide Num;
    hide Crc;
    hide Back;
    hide Header;
    hide HeaderIntact;
    BackFields(id, lba, backup, table, arrayCrc);
    var back := Back(id, lba, backup, table, arrayCrc);
    SignedIntact(back);
    var crc := Crc(Covered(Header(0, back), 92));
    Behind(crc, back, 4, 8);
    Behind(crc, back, 12, 8);
    Behind(crc, back, 20, 8);
    Behind(crc, back, 28, 8);
    Behind(crc, back, 36, 16);
    Behind(crc, back, 52, 8);
    Behind(crc, back, 60, 4);
    Behind(crc, back, 64, 4);
    Behind(crc, back, 68, 4);
  }

  // --------------------------------------------------------------------------
  // The ext4 superblock

  function SuperPieces(id: Identity): seq<seq<Byte>> {
    [Zeros(4), Le(1, 4), Zeros(48), Le(0xef53, 2), Le(1, 2), Zeros(16), Le(1, 4), Zeros(24), id.fs, LABEL + Zeros(7),
     Zeros(888)]
  }

  function Super(id: Identity): seq<Byte> {
    Join(SuperPieces(id), 11)
  }

  lemma SuperOffsets(id: Identity)
    requires Proper(id)
    ensures var p := SuperPieces(id);
            && |Join(p, 1)| == 4 && |Join(p, 2)| == 8 && |Join(p, 3)| == 56 && |Join(p, 4)| == 58
            && |Join(p, 6)| == 76 && |Join(p, 7)| == 80 && |Join(p, 8)| == 104 && |Join(p, 9)| == 120
            && |Join(p, 11)| == 1024
  {
    hide Le;
    var p := SuperPieces(id);
    assert |Join(p, 0)| == 0 && |Join(p, 1)| == 4 && |Join(p, 2)| == 8;
    assert |Join(p, 3)| == 56 && |Join(p, 4)| == 58 && |Join(p, 5)| == 60;
    assert |Join(p, 6)| == 76 && |Join(p, 7)| == 80 && |Join(p, 8)| == 104;
    assert |Join(p, 9)| == 120 && |Join(p, 10)| == 136;
  }

  lemma SuperAccepted(id: Identity)
    requires Proper(id)
    ensures |Super(id)| == 1024 && Ext4Ok(Super(id), id, 2048)
  {
    hide Le;
    hide Join;
    hide Num;
    var p, sb := SuperPieces(id), Super(id);
    SuperOffsets(id);
    Limits();
    NumberAt(p, 1, 1, 4);
    NumberAt(p, 3, 0xef53, 2);
    NumberAt(p, 4, 1, 2);
    NumberAt(p, 6, 1, 4);
    ZeroAt(p, 2, 16, 4);
    ZeroAt(p, 7, 16, 4);
    PieceAt(p, 8, 0, 16);
    PieceAt(p, 9, 0, 16);
    assert id.fs[0..16] == id.fs && (LABEL + Zeros(7))[0..16] == LABEL + Zeros(7);
  }

  // --------------------------------------------------------------------------
  // The whole disk

  function DiskPieces(id: Identity): seq<seq<Byte>>
    requires Proper(id)
  {
    var crc := Crc(Entry(id));
    BackOffsets(id, 1, 2053, 2, crc);
    BackOffsets(id, 2053, 1, 2052, crc);
    [Mbr(), Signed(Back(id, 1, 2053, 2, crc)), Entry(id), Zeros(384), Zeros(1047040), Zeros(1024), Super(id),
     Entry(id), Zeros(384), Signed(Back(id, 2053, 1, 2052, crc))]
  }

  function Formatted(id: Identity): seq<Byte>
    requires Proper(id)
  {
    Join(DiskPieces(id), 10)
  }

  lemma DiskOffsets(id: Identity)
    requires Proper(id)
    ensures var p := DiskPieces(id);
            && |Join(p, 0)| == 0 && |Join(p, 1)| == 512 && |Join(p, 2)| == 1024 && |Join(p, 6)| == 1049600
            && |Join(p, 7)| == 1050624 && |Join(p, 9)| == 1051136 && |Join(p, 10)| == LAYOUT_BYTES
            && |p[0]| == |p[1]| == |p[9]| == 512 && |p[2]| == |p[7]| == 128 && |p[6]| == 1024
  {
    hide Mbr;
    hide Signed;
    hide Entry;
    hide Super;
    hide Back;
    hide MbrOk;
    hide Ext4Ok;
    hide LabelOk;
    hide HeaderIntact;
    hide Decode;
    hide Num;
    hide Crc;
    var crc := Crc(Entry(id));
    CrcBound(Entry(id));
    MbrAccepted();
    EntryFields(id);
    SuperAccepted(id);
    SignedDecodes(id, 1, 2053, 2, crc);
    SignedDecodes(id, 2053, 1, 2052, crc);
    hide Join;
    hide Zeros;
    ZeroLengths();
    TenOffsets(DiskPieces(id));
  }

  lemma ZeroLengths()
    ensures |Zeros(384)| == 384 && |Zeros(1047040)| == 1047040 && |Zeros(1024)| == 1024
  {
  }

  lemma TenOffsets(p: seq<seq<Byte>>)
    requires |p| == 10 && |p[0]| == 512 && |p[1]| == 512 && |p[2]| == 128 && |p[3]| == 384 && |p[4]| == 1047040
    requires |p[5]| == 1024 && |p[6]| == 1024 && |p[7]| == 128 && |p[8]| == 384 && |p[9]| == 512
    ensures |Join(p, 0)| == 0 && |Join(p, 1)| == 512 && |Join(p, 2)| == 1024 && |Join(p, 6)| == 1049600
    ensures |Join(p, 7)| == 1050624 && |Join(p, 9)| == 1051136 && |Join(p, 10)| == LAYOUT_BYTES
  {
    assert |Join(p, 0)| == 0 && |Join(p, 1)| == 512 && |Join(p, 2)| == 1024;
    assert |Join(p, 3)| == 1152 && |Join(p, 4)| == 1536 && |Join(p, 5)| == 1048576;
    assert |Join(p, 6)| == 1049600 && |Join(p, 7)| == 1050624 && |Join(p, 8)| == 1050752;
    assert |Join(p, 9)| == 1051136;
  }

  lemma ReadPiece(id: Identity, k: nat)
    requires Proper(id) && k < 10
    ensures ReadAt(Formatted(id), |DiskPieces(id)[k]|, |Join(DiskPieces(id), k)|) == Some(DiskPieces(id)[k])
  {
    hide DiskPieces;
    hide Join;
    DiskOffsets(id);
    var p := DiskPieces(id);
    TenPieces(id);
    PieceAt(p, k, 0, |p[k]|);
    assert p[k][0..|p[k]|] == p[k];
  }

  lemma TenPieces(id: Identity)
    requires Proper(id)
    ensures |DiskPieces(id)| == 10
  {
  }

  lemma TablesAccepted(id: Identity)
    requires Proper(id)
    ensures var crc := Crc(Entry(id));
            Tables(Formatted(id), id, SECTORS) ==
            Some((Gpt(1, 2053, 3, 2051, 2, 1, 128, crc, id.disk), Gpt(2053, 1, 3, 2051, 2052, 1, 128, crc, id.disk),
                  Entry(id)))
  {
    hide Join;
    hide Formatted;
    hide Signed;
    hide Back;
    hide Mbr;
    hide Entry;
    hide Super;
    hide ReadAt;
    hide HeaderIntact;
    hide Decode;
    hide Crc;
    var crc := Crc(Entry(id));
    CrcBound(Entry(id));
    DiskOffsets(id);
    SignedDecodes(id, 1, 2053, 2, crc);
    SignedDecodes(id, 2053, 1, 2052, crc);
    ReadPiece(id, 1);
    ReadPiece(id, 2);
    ReadPiece(id, 7);
    ReadPiece(id, 9);
  }

  /** Whatever disk, partition and file system are asked for, there is a disk the gate accepts; what
      is proved of accepted disks is not about nothing. */
  lemma FormattedAccepted(id: Identity)
    requires Proper(id)
    ensures Gate(Formatted(id), id, LAYOUT_BYTES, LAYOUT_BYTES) == Some(Extent(2048, 2051))
  {
    hide Join;
    hide Formatted;
    hide Tables;
    hide ReadAt;
    hide MbrOk;
    hide Ext4Ok;
    hide LabelOk;
    hide Num;
    hide Signed;
    hide Back;
    hide Mbr;
    hide Entry;
    hide Super;
    DiskOffsets(id);
    SameLength(id);
    ReadPiece(id, 0);
    ReadPiece(id, 6);
    MbrAccepted();
    TablesAccepted(id);
    EntryFields(id);
    SuperAccepted(id);
  }

  lemma SameLength(id: Identity)
    requires Proper(id)
    ensures |Formatted(id)| == |Join(DiskPieces(id), 10)|
  {
  }
}
