/** DockChannel HID framing: header, sub-header, message padded to words, and a checksum that makes
    the words of the whole frame sum to 0xffffffff. */
module DchidFrame {
  import opened Wrappers
  import opened Arith
  import opened Bytes
  import opened DockChannel

  const MOD := 0x1_0000_0000
  const ALL_ONES := 0xffff_ffff
  const CHANNEL_CMD := 0x11
  const HDR_LEN := 8

  /** The checksum's value: the sum of the little-endian words. A tail shorter than a word is not
      counted. */
  function Sum(s: seq<Byte>): (r: nat)
    ensures r < MOD
  {
    if |s| < 4 then 0 else (FromLe(s[..4]) + Sum(s[4..])) % MOD
  }

  method Checksum(p: seq<Byte>) returns (sum: nat)
    ensures sum == Sum(p)
  {
    hide FromLe;
    sum := 0;
    var rest := p;
    while |rest| >= 4
      invariant 0 <= sum < MOD
      invariant (sum + Sum(rest)) % MOD == Sum(p)
    {
      var word := FromLe(rest[..4]);
      SumStep(sum, word, Sum(rest[4..]));
      sum := (sum + word) % MOD;
      rest := rest[4..];
    }
  }

  lemma SumStep(a: nat, b: nat, c: nat)
    ensures (((a + b) % MOD) + c) % MOD == (a + (b + c) % MOD) % MOD
  {
  }

  /** Whole words sum independently of how the bytes are split between calls. */
  lemma {:induction false} SumConcat(a: seq<Byte>, b: seq<Byte>)
    requires |a| % 4 == 0
    ensures Sum(a + b) == (Sum(a) + Sum(b)) % MOD
  {
    hide FromLe;
    if a == [] {
      assert a + b == b;
    } else {
      SumConcat(a[4..], b);
      assert (a + b)[..4] == a[..4] && (a + b)[4..] == a[4..] + b;
      SumStep(FromLe(a[..4]), Sum(a[4..]), Sum(b));
    }
  }

  function RoundDown4(n: nat): nat { n - n % 4 }
  function RoundUp4(n: nat): nat { (n + 3) / 4 * 4 }

  /** The message as it travels: zero-padded to whole words. */
  function Padded(msg: seq<Byte>): (r: seq<Byte>)
    ensures |r| == RoundUp4(|msg|) && msg <= r
    ensures forall i :: |msg| <= i < |r| ==> r[i] == 0
  {
    msg + Zeros(RoundUp4(|msg|) - |msg|)
  }

  /** struct dchid_hdr then struct dchid_subhdr, fields cut to their width. */
  function Header(seqno: Byte, iface: Byte, flags: nat, size: nat): (h: seq<Byte>)
    ensures |h| == 16
  {
    [HDR_LEN, CHANNEL_CMD] + Le((RoundUp4(size) + 8) % 0x1_0000, 2) + [seqno, iface, 0, 0]
    + [flags % 256, 0] + Le(size % 0x1_0000, 2) + [0, 0, 0, 0]
  }

  function Trailer(body: seq<Byte>): nat {
    (ALL_ONES - Sum(body)) % MOD
  }

  /** The bytes of one frame. */
  function Frame(seqno: Byte, iface: Byte, flags: nat, msg: seq<Byte>): seq<Byte> {
    var body := Header(seqno, iface, flags, |msg|) + Padded(msg);
    body + Le(Trailer(body), 4)
  }

  /** The running checksum after one more piece. */
  lemma TrailerStep(body: seq<Byte>, piece: seq<Byte>)
    requires |body| % 4 == 0
    ensures (Trailer(body) - Sum(piece)) % MOD == Trailer(body + piece)
  {
    hide Sum;
    SumConcat(body, piece);
    TrailerArith(Sum(body), Sum(piece));
  }

  lemma TrailerArith(a: nat, b: nat)
    ensures ((ALL_ONES - a) % MOD - b) % MOD == (ALL_ONES - (a + b) % MOD) % MOD
  {
    ModSub(ALL_ONES - a, b, MOD);
    ModSub(ALL_ONES, a + b, MOD);
  }

  /** Having sent a, and then n bytes of b, is having sent so many bytes of whatever a and b start. */
  lemma Prefix(start: seq<Byte>, a: seq<Byte>, b: seq<Byte>, n: nat, all: seq<Byte>)
    requires n <= |b| && a + b <= all
    ensures (start + a) + b[..n] == start + all[..|a| + n]
    ensures n == |b| ==> (start + a) + b[..n] == start + (a + b)
  {
    assert a + b[..n] == (a + b)[..|a| + n] == all[..|a| + n];
  }

  /** What has happened to the FIFO since it held `held` bytes and had `ticks` ahead of it, after a
      transfer of `size` bytes that went well or not. */
  ghost predicate Went(fifo: TxFifo, held: nat, ticks: seq<Tick>, size: nat, ok: bool)
    reads fifo
  {
    && |fifo.content| <= held + size
    && Paced(held + size <= fifo.capacity, fifo.capacity > 0, ticks, fifo.script, size, ok)
  }

  lemma NotYet(fifo: TxFifo)
    ensures Went(fifo, |fifo.content|, fifo.script, 0, true)
  {
  }

  /** A failed piece is a failed whole. */
  lemma FailedEarly(fifo: TxFifo, held: nat, ticks: seq<Tick>, n: nat, m: nat)
    requires Went(fifo, held, ticks, n, false) && n <= m
    ensures Went(fifo, held, ticks, m, false)
  {
    PacedFailed(held + n <= fifo.capacity, fifo.capacity > 0, ticks, fifo.script, n, m);
    hide Paced;
  }

  /** One more buffer. */
  method SendNext(fifo: TxFifo, buf: seq<Byte>, ghost held: nat, ghost ticks: seq<Tick>, ghost size: nat)
    returns (ok: bool, ghost n: nat)
    requires fifo.Valid() && Went(fifo, held, ticks, size, true)
    modifies fifo
    ensures fifo.Valid() && n <= |buf| && fifo.Stream() == old(fifo.Stream()) + buf[..n] && (ok <==> n == |buf|)
    ensures fifo.timeouts == old(fifo.timeouts) + (if ok then 0 else 1)
    ensures Went(fifo, held, ticks, size + |buf|, ok)
  {
    hide Paced;
    ok, n := fifo.Send(buf);
    PacedThen(held + size <= fifo.capacity, fifo.capacity > 0, ticks, old(fifo.script), size,
              |old(fifo.content)| + |buf| <= fifo.capacity, fifo.capacity > 0, fifo.script, |buf|, ok);
    PacedRoom(|old(fifo.content)| + |buf| <= fifo.capacity, held + size + |buf| <= fifo.capacity, fifo.capacity > 0,
              ticks, fifo.script, size + |buf|, ok);
  }

  lemma PacedRoom(room: bool, room': bool, able: bool, a: seq<Tick>, b: seq<Tick>, n: nat, ok: bool)
    requires Paced(room, able, a, b, n, ok) && (room' ==> room)
    ensures Paced(room', able, a, b, n, ok)
  {
  }

  /** Sends the next piece of `all` after `body` and takes it off the checksum; a timeout leaves a
      proper prefix of it. */
  method SendPiece(fifo: TxFifo, piece: seq<Byte>, checksum: nat, ghost start: seq<Byte>, ghost body: seq<Byte>,
                   ghost all: seq<Byte>, ghost held: nat, ghost ticks: seq<Tick>)
    returns (ok: bool, checksum': nat, ghost sent: nat)
    requires fifo.Valid() && |body| % 4 == 0 && checksum == Trailer(body)
    requires body + piece <= all && fifo.Stream() == start + body
    requires Went(fifo, held, ticks, |body|, true)
    modifies fifo
    ensures fifo.Valid() && sent <= |all| && fifo.Stream() == start + all[..sent]
    ensures ok ==>
              && sent == |body + piece| && fifo.Stream() == start + (body + piece)
              && checksum' == Trailer(body + piece)
    ensures !ok ==> sent < |body + piece|
    ensures fifo.timeouts == old(fifo.timeouts) + (if ok then 0 else 1)
    ensures Went(fifo, held, ticks, |body + piece|, ok)
  {
    hide Trailer;
    hide Went;
    ghost var n;
    checksum' := checksum;
    ok, n := SendNext(fifo, piece, held, ticks, |body|);
    Prefix(start, body, piece, n, all);
    sent := |body| + n;
    if !ok { return; }
    TrailerStep(body, piece);
    var c := Checksum(piece);
    checksum' := (checksum - c) % MOD;
  }

  /** The pieces of a body: header, whole words, tail. */
  lemma Pieces(h: seq<Byte>, msg: seq<Byte>, tail: seq<Byte>)
    requires |h| == 16
    requires var w := RoundDown4(|msg|); tail == if w == |msg| then [] else msg[w..] + Zeros(4 - (|msg| - w))
    ensures var words, all := msg[..RoundDown4(|msg|)], h + Padded(msg);
            && [] + h == h && h <= all && h + words <= all && (h + words) + tail == all
            && |h + words| % 4 == 0 && (tail == [] ==> h + words == all)
  {
    Rounding(|msg|);
    Assemble(h, msg, tail);
    hide RoundDown4;
    hide Padded;
  }

  /** Header, whole words and padded tail. */
  method SendBody(fifo: TxFifo, h: seq<Byte>, msg: seq<Byte>) returns (ok: bool, checksum: nat, ghost sent: nat)
    requires fifo.Valid() && |h| == 16
    modifies fifo
    ensures fifo.Valid() && sent <= |h + Padded(msg)|
    ensures fifo.Stream() == old(fifo.Stream()) + (h + Padded(msg))[..sent]
    ensures ok ==> sent == |h + Padded(msg)| && checksum == Trailer(h + Padded(msg))
    ensures !ok ==> sent < |h + Padded(msg)|
    ensures fifo.timeouts == old(fifo.timeouts) + (if ok then 0 else 1)
    ensures Went(fifo, |old(fifo.content)|, old(fifo.script), |h + Padded(msg)|, ok)
  {
    assert Trailer([]) == ALL_ONES;
    hide Trailer;
    hide Padded;
    hide Zeros;
    hide Went;
    Rounding(|msg|);
    hide RoundUp4;
    hide RoundDown4;
    checksum := ALL_ONES;
    var wsize := RoundDown4(|msg|);
    var tsize := |msg| - wsize;
    ghost var start, all := fifo.Stream(), h + Padded(msg);
    ghost var held, ticks := |fifo.content|, fifo.script;
    Pieces(h, msg, if tsize != 0 then msg[wsize..] + Zeros(4 - tsize) else []);
    NotYet(fifo);
    ok, checksum, sent := SendPiece(fifo, h, checksum, start, [], all, held, ticks);
    if !ok {
      FailedEarly(fifo, held, ticks, |h|, |all|);
      return;
    }
    ok, checksum, sent := SendPiece(fifo, msg[..wsize], checksum, start, h, all, held, ticks);
    if !ok {
      FailedEarly(fifo, held, ticks, |h + msg[..wsize]|, |all|);
      return;
    }
    if tsize != 0 {
      var tail := msg[wsize..] + Zeros(4 - tsize);
      ok, checksum, sent := SendPiece(fifo, tail, checksum, start, h + msg[..wsize], all, held, ticks);
    }
  }

  /** Sends one message. The pieces go out one by one while the checksum runs along; if none times
      out, the stream has grown by exactly the frame, otherwise by a proper prefix of it. It fails
      only by a wait that times out, never if the frame fits the FIFO or the other side is lively. */
  method Send(fifo: TxFifo, seqno: Byte, iface: Byte, flags: nat, msg: seq<Byte>) returns (ok: bool, ghost sent: nat)
    requires fifo.Valid()
    modifies fifo
    ensures fifo.Valid() && sent <= |Frame(seqno, iface, flags, msg)|
    ensures fifo.Stream() == old(fifo.Stream()) + Frame(seqno, iface, flags, msg)[..sent]
    ensures ok <==> sent == |Frame(seqno, iface, flags, msg)|
    ensures fifo.timeouts == old(fifo.timeouts) + (if ok then 0 else 1)
    ensures Went(fifo, |old(fifo.content)|, old(fifo.script), |Frame(seqno, iface, flags, msg)|, ok)
  {
    hide Le;
    hide Trailer;
    hide Padded;
    hide Went;
    var h := Header(seqno, iface, flags, |msg|);
    hide Header;
    ghost var start, body, n := fifo.Stream(), h + Padded(msg), 0;
    ghost var held, ticks := |fifo.content|, fifo.script;
    ghost var frame := Frame(seqno, iface, flags, msg);
    assert frame == body + Le(Trailer(body), 4);
    var checksum;
    ok, checksum, sent := SendBody(fifo, h, msg);
    assert body[..sent] == frame[..sent];
    if !ok {
      FailedEarly(fifo, held, ticks, |body|, |frame|);
      return;
    }
    ok, n := SendNext(fifo, Le(checksum, 4), held, ticks, |body|);
    assert body[..sent] == body;
    Prefix(start, body, Le(checksum, 4), n, frame);
    sent := |body| + n;
  }

  lemma Assemble(h: seq<Byte>, msg: seq<Byte>, tail: seq<Byte>)
    requires var w := RoundDown4(|msg|); tail == if w == |msg| then [] else msg[w..] + Zeros(4 - (|msg| - w))
    ensures (h + msg[..RoundDown4(|msg|)]) + tail == h + Padded(msg)
  {
    var w := RoundDown4(|msg|);
    Rounding(|msg|);
    hide RoundUp4;
    hide RoundDown4;
    if w == |msg| {
      assert msg[..w] == msg;
    } else {
      assert msg == msg[..w] + msg[w..];
    }
  }

  lemma Rounding(n: nat)
    ensures RoundUp4(n) == if RoundDown4(n) == n then n else RoundDown4(n) + 4
    ensures RoundDown4(n) <= n < RoundDown4(n) + 4 && RoundDown4(n) % 4 == 0
  {
  }

  // --------------------------------------------------------------------------
  // Receiving

  datatype Received = ReadFailed | BadHeaderLength | BadChecksum | Packet(hdr: seq<Byte>, body: seq<Byte>)

  /** The length field of a header. */
  function BodyLength(hdr: seq<Byte>): nat
    requires |hdr| == HDR_LEN
  {
    FromLe(hdr[2..4])
  }

  /** What the receiver makes of a stream that does not run dry. */
  function Parse(s: seq<Byte>): Received {
    if |s| < HDR_LEN then ReadFailed
    else
      var hdr := s[..HDR_LEN];
      var n := BodyLength(hdr);
      if hdr[0] != HDR_LEN then BadHeaderLength
      else if |s| < HDR_LEN + n + 4 then ReadFailed
      else if (Sum(hdr) + Sum(s[HDR_LEN..HDR_LEN + n + 4])) % MOD != ALL_ONES then BadChecksum
      else Packet(hdr, s[HDR_LEN..HDR_LEN + n])
  }

  /** When a stream holds a packet, in bytes: a header of length 8, the body it announces and four bytes
      more, with all whole words, header and rest apart, summing to all ones. */
  lemma ParseExactly(s: seq<Byte>)
    ensures Parse(s).BadHeaderLength? <==> |s| >= 8 && s[0] != 8
    ensures Parse(s).Packet? <==>
              && |s| >= 8 && s[0] == 8
              && var n := FromLe(s[2..4]);
                 |s| >= 12 + n && (Sum(s[..8]) + Sum(s[8..12 + n])) % 0x1_0000_0000 == 0xffff_ffff
    ensures Parse(s).Packet? ==> Parse(s) == Packet(s[..8], s[8..8 + FromLe(s[2..4])])
    ensures Parse(s).BadChecksum? <==> |s| >= 8 && s[0] == 8 && |s| >= 12 + FromLe(s[2..4]) && !Parse(s).Packet?
  {
    hide FromLe;
    hide Sum;
    if |s| >= 8 { assert s[..8][2..4] == s[2..4]; }
  }

  /** Reads one packet. Whatever the pace of the other side, the verdict is the one the stream
      deserves, unless a wait for data timed out; and none does if the packet is in the FIFO already
      or if the other side is lively for long enough. */
  method HandlePacket(fifo: RxFifo) returns (r: Received)
    requires fifo.Valid()
    modifies fifo
    ensures fifo.Valid()
    ensures r != ReadFailed ==> r == Parse(old(fifo.Pending()))
    ensures fifo.timeouts == old(fifo.timeouts) + (if r == ReadFailed then 1 else 0)
    ensures r == ReadFailed ==> Missed(old(fifo.script), fifo.script)
    ensures Parse(old(fifo.content)) != ReadFailed ==> r == Parse(old(fifo.Pending()))
    ensures Lively(old(fifo.script)) && fifo.capacity > 0 && |old(fifo.script)| >= 2 * |old(fifo.Pending())| ==>
              r == Parse(old(fifo.Pending()))
    ensures r.Packet? ==>
              var n := HDR_LEN + |r.body| + 4;
              n <= |old(fifo.Pending())| && fifo.Pending() == old(fifo.Pending())[n..]
  {
    hide FromLe;
    hide Sum;
    hide Left;
    hide Missed;
    hide Lively;
    ghost var s, held, ticks := fifo.Pending(), fifo.content, fifo.script;
    var ok, hdr := fifo.Recv(HDR_LEN);
    LeftKeeps(ticks, fifo.script);
    if !ok { return ReadFailed; }
    assert hdr == s[..HDR_LEN];
    if hdr[0] != HDR_LEN { return BadHeaderLength; }
    var pkt;
    var n := BodyLength(hdr);
    assert |held| >= HDR_LEN ==> held[..HDR_LEN] == hdr;
    ghost var now := fifo.script;
    ok, pkt := fifo.Recv(n + 4);
    if !ok {
      MissedSince(ticks, now, fifo.script);
      return ReadFailed;
    }
    assert pkt == s[HDR_LEN..HDR_LEN + n + 4];
    var checksum := Checksum(hdr);
    var more := Checksum(pkt);
    checksum := (checksum + more) % MOD;
    if checksum != ALL_ONES { return BadChecksum; }
    return Packet(hdr, pkt[..n]);
  }

  lemma HeaderParts(seqno: Byte, iface: Byte, flags: nat, size: nat)
    ensures var h := Header(seqno, iface, flags, size);
            && h[0] == HDR_LEN && h[1] == CHANNEL_CMD && h[4] == seqno && h[5] == iface && h[6] == 0 && h[7] == 0
            && h[8] == flags % 256 && h[9] == 0 && AllZero(h[12..16])
            && FromLe(h[2..4]) == (RoundUp4(size) + 8) % 0x1_0000
            && FromLe(h[10..12]) == size % 0x1_0000
  {
    var a, b := (RoundUp4(size) + 8) % 0x1_0000, size % 0x1_0000;
    var h := Header(seqno, iface, flags, size);
    Limits();
    assert h[2..4] == Le(a, 2) && h[10..12] == Le(b, 2);
    LeRoundTrip(a, 2);
    LeRoundTrip(b, 2);
  }

  /** The checksum makes the whole frame sum to all ones, however the receiver splits it. */
  lemma FrameSums(body: seq<Byte>)
    requires |body| % 4 == 0 && |body| >= HDR_LEN
    ensures (Sum(body[..HDR_LEN]) + Sum(body[HDR_LEN..] + Le(Trailer(body), 4))) % MOD == ALL_ONES
  {
    var t := Le(Trailer(body), 4);
    WordSum(Trailer(body));
    hide Le;
    hide Sum;
    var hdr, rest := body[..HDR_LEN], body[HDR_LEN..];
    assert hdr + rest == body && hdr + (rest + t) == body + t;
    SumConcat(hdr, rest + t);
    SumConcat(body, t);
    Complement(Sum(body));
  }

  lemma WordSum(word: nat)
    requires word < MOD
    ensures Sum(Le(word, 4)) == word
  {
    Limits();
    LeRoundTrip(word, 4);
    var t := Le(word, 4);
    hide Le;
    hide FromLe;
    assert t[..4] == t && t[4..] == [];
  }

  lemma Complement(a: nat)
    ensures (a + (ALL_ONES - a) % MOD) % MOD == ALL_ONES
  {
    var k := (ALL_ONES - a) / MOD;
    assert a + (ALL_ONES - a) % MOD == ALL_ONES + MOD * -k;
    ModShift(ALL_ONES, MOD, -k);
  }

  /** A stream that starts with a header, the body it announces and a fitting checksum. */
  lemma ParsePacket(hdr: seq<Byte>, body: seq<Byte>, t: seq<Byte>, more: seq<Byte>)
    requires |hdr| == HDR_LEN && hdr[0] == HDR_LEN && |body| == BodyLength(hdr) && |t| == 4
    requires (Sum(hdr) + Sum(body + t)) % MOD == ALL_ONES
    ensures Parse(hdr + body + t + more) == Packet(hdr, body)
  {
    hide Sum;
    hide FromLe;
    var s := hdr + body + t + more;
    assert s[..HDR_LEN] == hdr;
    assert s[HDR_LEN..HDR_LEN + |body| + 4] == body + t;
    assert s[HDR_LEN..HDR_LEN + |body|] == body;
  }

  /** What a receiver should see of a command: the packet is for the command channel of this interface,
      under this sequence number, and holds these flags, the message's length, the message, and up to
      three zero bytes to the next multiple of four; everything else is zero. */
  ghost predicate Carries(r: Received, seqno: Byte, iface: Byte, flags: nat, msg: seq<Byte>) {
    && r.Packet? && |r.hdr| == 8 && r.hdr[0] == 8 && r.hdr[1] == 0x11 && FromLe(r.hdr[2..4]) == |r.body|
    && r.hdr[4] == seqno && r.hdr[5] == iface && r.hdr[6] == 0 && r.hdr[7] == 0
    && |msg| + 8 <= |r.body| < |msg| + 12 && |r.body| % 4 == 0
    && r.body[0] == flags % 256 && r.body[1] == 0 && FromLe(r.body[2..4]) == |msg| && AllZero(r.body[4..8])
    && r.body[8..8 + |msg|] == msg && AllZero(r.body[8 + |msg|..])
  }

  lemma FrameFits(h: seq<Byte>, msg: seq<Byte>, more: seq<Byte>)
    requires |h| == 16 && h[0] == HDR_LEN && FromLe(h[2..4]) == |Padded(msg)| + 8
    ensures Parse(h + Padded(msg) + Le(Trailer(h + Padded(msg)), 4) + more)
            == Packet(h[..HDR_LEN], h[HDR_LEN..] + Padded(msg))
  {
    var body := Padded(msg);
    assert |h + body| % 4 == 0;
    hide Padded;
    hide RoundUp4;
    hide FromLe;
    hide Le;
    hide Sum;
    hide Trailer;
    hide Parse;
    var t := Le(Trailer(h + body), 4);
    Resplit(h, body, t, more);
    FrameSums(h + body);
    ParsePacket(h[..HDR_LEN], h[HDR_LEN..] + body, t, more);
  }

  /** A packet cut from a frame whose header shows the right things. */
  lemma PacketCarries(h: seq<Byte>, msg: seq<Byte>, seqno: Byte, iface: Byte, flags: nat)
    requires |h| == 16 && h[0] == HDR_LEN && h[1] == CHANNEL_CMD
    requires h[4] == seqno && h[5] == iface && h[6] == 0 && h[7] == 0
    requires h[8] == flags % 256 && h[9] == 0 && AllZero(h[12..16])
    requires FromLe(h[2..4]) == RoundUp4(|msg|) + 8 && FromLe(h[10..12]) == |msg|
    ensures Carries(Packet(h[..HDR_LEN], h[HDR_LEN..] + Padded(msg)), seqno, iface, flags, msg)
  {
    hide FromLe;
    hide Padded;
    hide RoundUp4;
    hide RoundDown4;
    Rounding(|msg|);
    var padded := Padded(msg);
    var body := h[HDR_LEN..] + padded;
    Sections(h, padded);
    assert padded[..|msg|] == msg;
    assert AllZero(padded[|msg|..]);
    assert body[8..8 + |msg|] == padded[..|msg|];
    assert body[8 + |msg|..] == padded[|msg|..];
  }

  lemma Sections(h: seq<Byte>, padded: seq<Byte>)
    requires |h| == 16
    ensures var body := h[HDR_LEN..] + padded;
            && h[..HDR_LEN][2..4] == h[2..4] && body[2..4] == h[10..12] && body[4..8] == h[12..16]
            && body[0] == h[8] && body[1] == h[9]
  {
  }

  /** The receiver gets the command, message and all, if and only if its padded length and the
      sub-header fit the sixteen-bit length field. */
  lemma {:induction false} FrameArrives(seqno: Byte, iface: Byte, flags: nat, msg: seq<Byte>, more: seq<Byte>)
    ensures Carries(Parse(Frame(seqno, iface, flags, msg) + more), seqno, iface, flags, msg) <==>
            RoundUp4(|msg|) + 8 <= 0xffff
  {
    hide Header;
    hide Padded;
    hide RoundUp4;
    hide FromLe;
    hide Le;
    hide Trailer;
    hide Parse;
    hide Sum;
    var h, body, size := Header(seqno, iface, flags, |msg|), Padded(msg), RoundUp4(|msg|) + 8;
    HeaderParts(seqno, iface, flags, |msg|);
    Rounding(|msg|);
    hide RoundDown4;
    if size <= 0xffff {
      hide Carries;
      assert FromLe(h[2..4]) == size && FromLe(h[10..12]) == |msg|;
      FrameFits(h, msg, more);
      PacketCarries(h, msg, seqno, iface, flags);
    } else {
      assert FromLe(h[2..4]) < 0x1_0000 <= |body| + 8;
      TooShort(h, body, Le(Trailer(h + body), 4), more);
    }
  }

  lemma TooShort(h: seq<Byte>, body: seq<Byte>, t: seq<Byte>, more: seq<Byte>)
    requires |h| == 16 && FromLe(h[2..4]) < |body| + 8
    ensures var r := Parse(h + body + t + more); r.Packet? ==> |r.body| < |body| + 8
  {
    hide FromLe;
    hide Parse;
    Resplit(h, body, t, more);
    ParsedLength(h + body + t + more);
  }

  /** The frame as the sender pushes it and as the receiver cuts it. */
  lemma Resplit(h: seq<Byte>, body: seq<Byte>, t: seq<Byte>, more: seq<Byte>)
    requires |h| == 16
    ensures var hdr, rest := h[..HDR_LEN], h[HDR_LEN..] + body;
            && h + body + t + more == hdr + rest + t + more
            && hdr[2..4] == h[2..4] && (h + body)[HDR_LEN..] == rest && (h + body)[..HDR_LEN] == hdr
            && (hdr + rest + t + more)[..HDR_LEN] == hdr
  {
    assert h == h[..HDR_LEN] + h[HDR_LEN..];
  }

  lemma ParsedLength(s: seq<Byte>)
    ensures Parse(s).Packet? ==> |s| >= HDR_LEN && |Parse(s).body| == BodyLength(s[..HDR_LEN])
  {
  }

  /** A message that does not arrive: 65528 zero bytes and the sub-header make the length field wrap
      to zero. */
  lemma LongMessageLost(more: seq<Byte>)
    ensures !Carries(Parse(Frame(0, 0, 0, Zeros(65528)) + more), 0, 0, 0, Zeros(65528))
    ensures FromLe(Header(0, 0, 0, 65528)[2..4]) == 0
  {
    hide Parse;
    hide Frame;
    hide Carries;
    hide Header;
    FrameArrives(0, 0, 0, Zeros(65528), more);
    HeaderParts(0, 0, 0, 65528);
  }

  // --------------------------------------------------------------------------
  // Damaged frames

  /** One changed byte changes the sum exactly if it is in a whole word. */
  lemma {:induction false} SumDiffers(s: seq<Byte>, t: seq<Byte>, i: nat)
    requires DifferAt(s, t, i)
    ensures Sum(s) != Sum(t) <==> i < RoundDown4(|s|)
    decreases |s|
  {
    hide FromLe;
    hide Sum;
    hide RoundDown4;
    SumStart(s);
    SumStart(t);
    if |s| >= 4 {
      var a, b := FromLe(s[..4]), FromLe(t[..4]);
      if i < 4 {
        assert s[..4][i] != t[..4][i];
        assert s[4..] == t[4..];
        SumsApart(a, b, Sum(s[4..]));
      } else {
        assert s[..4] == t[..4];
        SumDiffers(s[4..], t[4..], i - 4);
        SumsApart(Sum(s[4..]), Sum(t[4..]), a);
      }
    }
  }

  lemma SumStart(s: seq<Byte>)
    ensures |s| < 4 ==> Sum(s) == 0 && RoundDown4(|s|) == 0
    ensures |s| >= 4 ==>
              && Sum(s) == (FromLe(s[..4]) + Sum(s[4..])) % MOD && RoundDown4(|s|) == RoundDown4(|s| - 4) + 4
              && FromLe(s[..4]) < MOD && Le(FromLe(s[..4]), 4) == s[..4]
  {
    hide FromLe;
    hide Le;
    if |s| >= 4 {
      Limits();
      FromLeRoundTrip(s[..4]);
    }
  }

  lemma SumsApart(a: nat, b: nat, c: nat)
    requires a < MOD && b < MOD && c < MOD
    ensures (a + c) % MOD == (b + c) % MOD <==> a == b
  {
  }

  /** A packet with one byte damaged, outside the length field, is accepted only if the byte is one the
      sum does not cover: in a tail shorter than a word. */
  lemma {:induction false} DamageCaught(s: seq<Byte>, t: seq<Byte>, i: nat)
    requires Parse(s).Packet? && DifferAt(s, t, i) && i != 2 && i != 3
    requires i < HDR_LEN + |Parse(s).body| + 4
    ensures Parse(t).Packet? <==> i >= HDR_LEN + RoundDown4(|Parse(s).body| + 4)
  {
    hide FromLe;
    hide Sum;
    var n := |Parse(s).body|;
    var hdr, pkt := s[..HDR_LEN], s[HDR_LEN..HDR_LEN + n + 4];
    var hdr', pkt' := t[..HDR_LEN], t[HDR_LEN..HDR_LEN + n + 4];
    assert hdr[2..4] == hdr'[2..4];
    assert n == BodyLength(hdr) == BodyLength(hdr');
    if i < HDR_LEN {
      assert DifferAt(hdr, hdr', i) && pkt == pkt';
      SumDiffers(hdr, hdr', i);
      SumsApart(Sum(hdr), Sum(hdr'), Sum(pkt));
    } else {
      assert DifferAt(pkt, pkt', i - HDR_LEN) && hdr == hdr';
      SumDiffers(pkt, pkt', i - HDR_LEN);
      SumsApart(Sum(pkt), Sum(pkt'), Sum(hdr));
    }
  }
}
