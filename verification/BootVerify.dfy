/** The verdict on a whole boot object, and what acceptance in strict mode establishes. */
module BootVerify {
  import opened Wrappers
  import opened Bytes
  import opened BootObject

  /** What the caller asks for: the artifacts and boot arguments expected, and the policy. */
  datatype Request = Request(
    m1n1: seq<Byte>, expected: map<Role, seq<Byte>>, bootargs: Option<seq<Byte>>,
    strict: bool, allowFsImage: bool, maxSize: nat)

  datatype Report = Report(records: seq<Record>, variables: Variables, reserve: nat)

  const ORDER: seq<Role> := [Kernel, Dtb, Initramfs]

  predicate IsPayload(r: Record) {
    r.role == Kernel || r.role == Dtb || r.role == Initramfs
  }

  /** m1n1 fills whole pages and has something at its entry point. */
  predicate PrefixOk(m1n1: seq<Byte>) {
    && |m1n1| % ALIGNMENT == 0 && |m1n1| > RAW_ENTRY_POINT + 4
    && m1n1[RAW_ENTRY_POINT..RAW_ENTRY_POINT + 4] != TERMINATOR
  }

  predicate FrameOk(image: seq<Byte>, q: Request) {
    |image| <= q.maxSize && |image| % ALIGNMENT == 0 && PrefixOk(q.m1n1) && q.m1n1 <= image
  }

  /** The kernel, DTB and initramfs records, in order. */
  function Payloads(records: seq<Record>): (r: seq<Record>)
    ensures forall i :: 0 <= i < |r| ==> IsPayload(r[i]) && r[i] in records
  {
    if records == [] then []
    else
      var n := |records| - 1;
      Payloads(records[..n]) + (if IsPayload(records[n]) then [records[n]] else [])
  }

  function Roles(records: seq<Record>): (r: seq<Role>)
    ensures |r| == |records| && forall i :: 0 <= i < |r| ==> r[i] == records[i].role
  {
    seq(|records|, i requires 0 <= i < |records| => records[i].role)
  }

  function Reserve(records: seq<Record>): nat {
    if records == [] then 0 else Reserve(records[..|records| - 1]) + records[|records| - 1].reserve
  }

  /** The bytes of a record; clamped to the object as slices are. */
  function BytesOf(r: Record, image: seq<Byte>): seq<Byte> {
    if r.offset + r.size <= |image| then image[r.offset..r.offset + r.size]
    else if r.offset <= |image| then image[r.offset..] else []
  }

  /** The record holds the artifact supplied for its role; in strict mode one must be supplied. */
  predicate Matches(r: Record, image: seq<Byte>, q: Request) {
    if r.role in q.expected then BytesOf(r, image) == q.expected[r.role] else !q.strict
  }

  predicate BootargsOk(variables: Variables, q: Request) {
    && (q.bootargs.Some? ==> BOOTARGS in variables && variables[BOOTARGS] == q.bootargs.value)
    && (q.strict ==> q.bootargs.Some? && BOOTARGS in variables)
  }

  predicate EndsInTerminator(records: seq<Record>) {
    records != [] && records[|records| - 1].role == Terminator && records[|records| - 1].size >= 4
  }

  /** The scanned stream satisfies the request. */
  predicate StreamOk(s: Stream, image: seq<Byte>, q: Request) {
    var payloads := Payloads(s.records);
    && Roles(payloads) == ORDER && EndsInTerminator(s.records)
    && (forall i :: 0 <= i < |payloads| ==> Matches(payloads[i], image, q))
    && BootargsOk(s.variables, q)
  }

  function Verdict(codec: Codec, image: seq<Byte>, q: Request): Option<Report> {
    if !FrameOk(image, q) then None
    else
      var s :- ParseFrom(codec, image, |q.m1n1|, Stream([], map[]), q.allowFsImage);
      if StreamOk(s, image, q) then Some(Report(s.records, s.variables, Reserve(Payloads(s.records)))) else None
  }

  method PayloadRecords(records: seq<Record>) returns (payloads: seq<Record>, reserve: nat)
    ensures payloads == Payloads(records) && reserve == Reserve(payloads)
  {
    payloads, reserve := [], 0;
    for i := 0 to |records|
      invariant payloads == Payloads(records[..i]) && reserve == Reserve(payloads)
    {
      assert records[..i + 1][..i] == records[..i];
      if IsPayload(records[i]) {
        assert (payloads + [records[i]])[..|payloads|] == payloads;
        payloads, reserve := payloads + [records[i]], reserve + records[i].reserve;
      }
    }
    assert records[..|records|] == records;
  }

  method CompareArtifacts(payloads: seq<Record>, image: seq<Byte>, q: Request) returns (same: bool)
    ensures same <==> forall i :: 0 <= i < |payloads| ==> Matches(payloads[i], image, q)
  {
    for i := 0 to |payloads|
      invariant forall j :: 0 <= j < i ==> Matches(payloads[j], image, q)
    {
      var record := payloads[i];
      if record.role !in q.expected {
        if q.strict {
          assert !Matches(payloads[i], image, q);
          return false;
        }
      } else if BytesOf(record, image) != q.expected[record.role] {
        assert !Matches(payloads[i], image, q);
        return false;
      }
    }
    return true;
  }

  method VerifyObject(codec: Codec, image: seq<Byte>, q: Request) returns (r: Option<Report>)
    ensures r == Verdict(codec, image, q)
  {
    hide Matches;
    hide Payloads;
    hide ParseFrom;
    hide Roles;
    hide Reserve;
    if |image| > q.maxSize || |q.m1n1| % ALIGNMENT != 0 || |image| % ALIGNMENT != 0 { return None; }
    if |q.m1n1| <= RAW_ENTRY_POINT + 4 { return None; }
    if q.m1n1[RAW_ENTRY_POINT..RAW_ENTRY_POINT + 4] == TERMINATOR { return None; }
    if !(q.m1n1 <= image) { return None; }
    var parsed := ParsePayloadStream(codec, image, |q.m1n1|, q.allowFsImage);
    if parsed.None? { return None; }
    var s := parsed.value;
    var payloads, reserve := PayloadRecords(s.records);
    if Roles(payloads) != ORDER { return None; }
    if s.records == [] || s.records[|s.records| - 1].role != Terminator
        || s.records[|s.records| - 1].size < 4 { return None; }
    var same := CompareArtifacts(payloads, image, q);
    if !same { return None; }
    var actual := if BOOTARGS in s.variables then Some(s.variables[BOOTARGS]) else None;
    if q.bootargs.Some? && actual != q.bootargs { return None; }
    if q.strict && (q.bootargs.None? || actual.None?) { return None; }
    return Some(Report(s.records, s.variables, reserve));
  }

  lemma {:induction false} PayloadsGrow(front: seq<Record>, all: seq<Record>)
    requires front <= all
    ensures Payloads(front) <= Payloads(all)
    decreases |all|
  {
    if |front| < |all| {
      var n := |all| - 1;
      PayloadsGrow(front, all[..n]);
    } else {
      assert front == all;
    }
  }

  /** A payload out of order cannot be made good by what follows. */
  lemma WrongRole(front: seq<Record>, r: Record, all: seq<Record>)
    requires front + [r] <= all && IsPayload(r) && |Payloads(front)| < 3 && r.role != ORDER[|Payloads(front)|]
    ensures Roles(Payloads(all)) != ORDER
  {
    var n := |Payloads(front)|;
    assert (front + [r])[..|front|] == front;
    assert Payloads(front + [r]) == Payloads(front) + [r];
    PayloadsGrow(front + [r], all);
    assert Payloads(all)[n] == r;
    assert Roles(Payloads(all))[n] == r.role;
  }

  // --------------------------------------------------------------------------
  // Soundness

  /** Three records of the payload kinds, in this order, and no others. */
  ghost predicate OnceEach(records: seq<Record>, k: nat, d: nat, i: nat) {
    && k < d < i < |records|
    && records[k].role == Kernel && records[d].role == Dtb && records[i].role == Initramfs
    && forall j :: 0 <= j < |records| && IsPayload(records[j]) ==> j == k || j == d || j == i
  }

  /** Where the payloads sit among all records: increasing, and no payload is left out. */
  ghost predicate Places(records: seq<Record>, payloads: seq<Record>, at: seq<nat>) {
    && |at| == |payloads|
    && (forall i :: 0 <= i < |at| ==> at[i] < |records| && records[at[i]] == payloads[i])
    && (forall i, j :: 0 <= i < j < |at| ==> at[i] < at[j])
    && (forall j: nat :: j < |records| && IsPayload(records[j]) ==> j in at)
  }

  lemma PlacesStep(records: seq<Record>, payloads: seq<Record>, at: seq<nat>, r: Record)
    requires Places(records, payloads, at)
    ensures IsPayload(r) ==> Places(records + [r], payloads + [r], at + [|records|])
    ensures !IsPayload(r) ==> Places(records + [r], payloads, at)
  {
    hide IsPayload;
    var all := records + [r];
    forall j: nat | j < |all| && IsPayload(all[j])
      ensures j in at + [|records|] && (!IsPayload(r) ==> j in at)
    {
      if j < |records| {
        assert all[j] == records[j];
        assert j in at;
      } else {
        assert (at + [|records|])[|at|] == j;
      }
    }
  }

  lemma {:induction false} PlacesOf(records: seq<Record>) returns (at: seq<nat>)
    ensures Places(records, Payloads(records), at)
  {
    hide Places;
    if records == [] {
      at := [];
      NoPlaces();
    } else {
      var n := |records| - 1;
      var before := PlacesOf(records[..n]);
      PlacesStep(records[..n], Payloads(records[..n]), before, records[n]);
      assert records == records[..n] + [records[n]];
      at := if IsPayload(records[n]) then before + [n] else before;
      assert Payloads(records[..n]) + [] == Payloads(records[..n]);
    }
  }

  lemma NoPlaces()
    ensures Places([], [], [])
  {
  }

  lemma OrderMeansOnce(records: seq<Record>) returns (k: nat, d: nat, i: nat)
    requires Roles(Payloads(records)) == ORDER
    ensures OnceEach(records, k, d, i) && Payloads(records) == [records[k], records[d], records[i]]
  {
    var at := PlacesOf(records);
    var payloads := Payloads(records);
    assert |payloads| == 3 && payloads[0].role == ORDER[0] && payloads[1].role == ORDER[1]
           && payloads[2].role == ORDER[2];
    k, d, i := at[0], at[1], at[2];
    assert at == [k, d, i];
  }

  predicate Holds(r: Record, at: nat) {
    r.offset <= at < r.offset + r.size
  }

  lemma {:induction false} TilesWithin(records: seq<Record>, lo: nat, hi: nat, j: nat)
    requires Tiles(records, lo, hi) && j < |records|
    ensures lo <= hi && lo <= records[j].offset && records[j].offset + records[j].size <= hi
  {
    var n := |records| - 1;
    if n > 0 {
      TilesWithin(records[..n], lo, records[n].offset, if j < n then j else 0);
    }
  }

  /** Tiling leaves no gap and no overlap: every byte lies in exactly one record. */
  lemma {:induction false} HeldOnce(records: seq<Record>, lo: nat, hi: nat, at: nat) returns (j: nat)
    requires Tiles(records, lo, hi) && lo <= at < hi
    ensures j < |records| && Holds(records[j], at)
    ensures forall i :: 0 <= i < |records| && Holds(records[i], at) ==> i == j
  {
    var n := |records| - 1;
    if records[n].offset <= at {
      j := n;
      forall i | 0 <= i < n
        ensures !Holds(records[i], at)
      {
        TilesWithin(records[..n], lo, records[n].offset, i);
      }
    } else {
      j := HeldOnce(records[..n], lo, records[n].offset, at);
    }
  }

  /** The object is exactly: m1n1, in whole pages and with something at its entry point, then the records
      back to back, closed by at least four zeros; what artifacts were supplied the three payloads
      are, and boot arguments that were asked for stand on one line. */
  ghost predicate Established(r: Report, image: seq<Byte>, q: Request, k: nat, d: nat, i: nat) {
    && |image| <= q.maxSize && |image| % 0x4000 == 0 && q.m1n1 <= image && Tiles(r.records, |q.m1n1|, |image|)
    && |q.m1n1| % 0x4000 == 0 && |q.m1n1| > 0x804 && !AllZero(q.m1n1[0x800..0x804])
    && OnceEach(r.records, k, d, i)
    && (Kernel in q.expected ==> BytesOf(r.records[k], image) == q.expected[Kernel])
    && (Dtb in q.expected ==> BytesOf(r.records[d], image) == q.expected[Dtb])
    && (Initramfs in q.expected ==> BytesOf(r.records[i], image) == q.expected[Initramfs])
    && r.reserve == r.records[k].reserve + r.records[d].reserve + r.records[i].reserve
    && EndsInTerminator(r.records) && ClosedByZeros(r.records, image)
    && Recorded(Stream(r.records, r.variables), image)
    && (q.bootargs.Some? ==> BOOTARGS in r.variables && r.variables[BOOTARGS] == q.bootargs.value)
  }

  ghost predicate ClosedByZeros(records: seq<Record>, image: seq<Byte>)
    requires records != []
  {
    var t := records[|records| - 1];
    && 4 <= t.size && t.offset + t.size == |image| && AllZero(image[t.offset..])
    && forall j :: 0 <= j < |records| - 1 ==> records[j].role != Terminator
  }

  lemma NothingRecorded(image: seq<Byte>)
    ensures Recorded(Stream([], map[]), image)
  {
  }

  /** What an accepted object's scan gives. */
  lemma ScanMeans(codec: Codec, image: seq<Byte>, q: Request)
    requires Verdict(codec, image, q).Some?
    ensures var r := Verdict(codec, image, q).value;
            && Tiles(r.records, |q.m1n1|, |image|) && EndsWell(r.records, image)
            && Recorded(Stream(r.records, r.variables), image)
  {
    hide ParseFrom;
    hide Recorded;
    hide PrefixOk;
    hide StreamOk;
    hide Payloads;
    var start := |q.m1n1|;
    var empty := Stream([], map[]);
    NothingRecorded(image);
    ParseTiles(codec, image, start, start, empty, q.allowFsImage);
    ParseRecords(codec, image, start, empty, q.allowFsImage);
  }

  /** What acceptance establishes in either mode. */
  lemma AcceptedMeans(codec: Codec, image: seq<Byte>, q: Request) returns (k: nat, d: nat, i: nat)
    requires Verdict(codec, image, q).Some?
    ensures Established(Verdict(codec, image, q).value, image, q, k, d, i)
  {
    hide ParseFrom;
    hide Recorded;
    hide Tiles;
    hide Payloads;
    hide BytesOf;
    ScanMeans(codec, image, q);
    EntrySet(q.m1n1);
    hide PrefixOk;
    hide AllZero;
    var r := Verdict(codec, image, q).value;
    k, d, i := OrderMeansOnce(r.records);
    var payloads := Payloads(r.records);
    assert Matches(payloads[0], image, q) && Matches(payloads[1], image, q) && Matches(payloads[2], image, q);
    ReserveOfThree(r.records[k], r.records[d], r.records[i]);
    assert r.records[|r.records| - 1].role == Terminator;
  }

  lemma EntrySet(m1n1: seq<Byte>)
    ensures PrefixOk(m1n1) <==> |m1n1| % 0x4000 == 0 && |m1n1| > 0x804 && !AllZero(m1n1[0x800..0x804])
  {
    if |m1n1| > 0x804 {
      var e := m1n1[0x800..0x804];
      assert AllZero(e) <==> e == TERMINATOR;
    }
  }

  /** In strict mode nothing may be left out: all three artifacts and the boot arguments were supplied,
      and are what is in the object. */
  lemma StrictMeans(codec: Codec, image: seq<Byte>, q: Request) returns (k: nat, d: nat, i: nat)
    requires q.strict && Verdict(codec, image, q).Some?
    ensures Established(Verdict(codec, image, q).value, image, q, k, d, i)
    ensures Kernel in q.expected && Dtb in q.expected && Initramfs in q.expected && q.bootargs.Some?
  {
    hide ParseFrom;
    hide Payloads;
    hide PrefixOk;
    hide BytesOf;
    hide Established;
    var r := Verdict(codec, image, q).value;
    k, d, i := OrderMeansOnce(r.records);
    k, d, i := AcceptedMeans(codec, image, q);
    var payloads := Payloads(r.records);
    assert |payloads| == 3 && payloads[0].role == Kernel && payloads[1].role == Dtb && payloads[2].role == Initramfs;
    assert Matches(payloads[0], image, q) && Matches(payloads[1], image, q) && Matches(payloads[2], image, q);
  }

  lemma ReserveOfThree(a: Record, b: Record, c: Record)
    ensures Reserve([a, b, c]) == a.reserve + b.reserve + c.reserve
  {
    assert [a, b, c][..2] == [a, b] && [a, b][..1] == [a] && [a][..0] == [];
    assert Reserve([a]) == a.reserve;
    assert Reserve([a, b]) == a.reserve + b.reserve;
  }
}
