/** The DockChannel FIFOs: a byte stream over a bounded queue, moved in words and bytes as room or
    data allows while the other side drains or fills at its own pace. */
module DockChannel {
  import opened Bytes
  import opened Seqs

  /** What the other side does at one register access: bytes it moves, and whether a sleeper would
      be woken rather than time out. */
  datatype Tick = Tick(moved: nat, wake: bool)

  /** Every sleeper is woken. */
  ghost predicate AllWake(script: seq<Tick>) {
    forall i :: 0 <= i < |script| ==> script[i].wake
  }

  /** The other side moves something at every access, if it can. */
  ghost predicate Lively(script: seq<Tick>) {
    forall i :: 0 <= i < |script| ==> script[i].moved > 0
  }

  /** `later` is what is left of the script `now`. */
  ghost predicate Left(now: seq<Tick>, later: seq<Tick>) {
    |later| <= |now| && later == now[|now| - |later|..]
  }

  /** A wait ended in vain: no tick was left for it, or the last one consumed was its own and did not
      wake. */
  ghost predicate Missed(now: seq<Tick>, later: seq<Tick>) {
    later == [] || (|later| < |now| && !now[|now| - |later| - 1].wake)
  }

  /** A wait consumes one tick, if there is one, and is woken exactly if that tick wakes. */
  ghost predicate Slept(now: seq<Tick>, later: seq<Tick>, woken: bool) {
    && later == (if now == [] then [] else now[1..])
    && (woken <==> now != [] && now[0].wake)
  }

  lemma MissedSince(a: seq<Tick>, b: seq<Tick>, c: seq<Tick>)
    requires Left(a, b) && Missed(b, c)
    ensures Missed(a, c)
  {
  }

  /** So if every sleeper is woken, a wait is in vain only at the end of the script. */
  lemma MissedAtEnd(now: seq<Tick>, later: seq<Tick>)
    requires AllWake(now) && Missed(now, later)
    ensures later == []
  {
  }

  lemma LeftTrans(a: seq<Tick>, b: seq<Tick>, c: seq<Tick>)
    requires Left(a, b) && Left(b, c)
    ensures Left(a, c) && |c| <= |b| <= |a|
  {
  }

  lemma LeftKeeps(a: seq<Tick>, b: seq<Tick>)
    requires Left(a, b)
    ensures Lively(a) ==> Lively(b)
  {
  }

  /** How a transfer of `size` bytes went by the other side's script, of which `now` was left before
      and `later` after: with enough `room` (or data) at the outset it succeeds; it fails only by a wait
      in vain; and it succeeds if the other side is lively for two accesses a byte and there is
      something for it to do, `able`. */
  ghost predicate Paced(room: bool, able: bool, now: seq<Tick>, later: seq<Tick>, size: nat, ok: bool) {
    && Left(now, later)
    && (room ==> ok)
    && (!ok ==> Missed(now, later))
    && (Lively(now) && able && |now| >= 2 * size ==> ok && |later| >= |now| - 2 * size)
  }

  /** Two transfers, one after the other. */
  lemma PacedThen(room1: bool, able1: bool, a: seq<Tick>, b: seq<Tick>, n: nat,
                  room2: bool, able2: bool, c: seq<Tick>, m: nat, ok: bool)
    requires Paced(room1, able1, a, b, n, true) && Paced(room2, able2, b, c, m, ok)
    ensures Paced(room2, able1 && able2, a, c, n + m, ok)
  {
    hide Left;
    hide Missed;
    hide Lively;
    LeftTrans(a, b, c);
    LeftKeeps(a, b);
    if !ok { MissedSince(a, b, c); }
  }

  /** A failed transfer, as the beginning of a longer one. */
  lemma PacedFailed(room: bool, able: bool, a: seq<Tick>, b: seq<Tick>, n: nat, m: nat)
    requires Paced(room, able, a, b, n, false) && n <= m
    ensures Paced(false, able, a, b, m, false) && !room
  {
    hide Left;
    hide Missed;
    hide Lively;
  }

  function Min(a: nat, b: nat): nat {
    if a < b then a else b
  }

  lemma Extend(before: seq<Byte>, buf: seq<Byte>, p: nat, n: nat)
    requires p + n <= |buf|
    ensures (before + buf[..p]) + buf[p..p + n] == before + buf[..p + n]
  {
    assert buf[..p + n] == buf[..p] + buf[p..p + n];
  }

  class TxFifo {
    const capacity: nat
    var content: seq<Byte>
    var delivered: seq<Byte>
    var script: seq<Tick>          // the other side's future, one tick per access
    ghost var timeouts: nat        // waits that ended without a wake-up

    constructor (size: nat, ticks: seq<Tick>)
      ensures Valid() && capacity == size && Stream() == [] && script == ticks && timeouts == 0
    {
      capacity, content, delivered, script, timeouts := size, [], [], ticks, 0;
    }

    ghost predicate Valid()
      reads this
    {
      |content| <= capacity
    }

    /** Everything pushed so far, in order. */
    ghost function Stream(): seq<Byte>
      reads this
    {
      delivered + content
    }

    /** The other side drains a little. */
    method Access() returns (wake: bool)
      requires Valid()
      modifies this`content, this`delivered, this`script
      ensures Valid() && Stream() == old(Stream()) && |content| <= |old(content)|
      ensures if old(script) == [] then script == [] && !wake && content == old(content)
              else
                && script == old(script)[1..] && wake == old(script)[0].wake
                && (old(script)[0].moved > 0 && old(content) != [] ==> |content| < |old(content)|)
      ensures Left(old(script), script)
    {
      if script == [] { return false; }
      var k := Min(script[0].moved, |content|);
      wake := script[0].wake;
      delivered, content := delivered + content[..k], content[k..];
      script := script[1..];
    }

    method ReadFree() returns (avail: nat)
      requires Valid()
      modifies this`content, this`delivered, this`script
      ensures Valid() && Stream() == old(Stream()) && |content| <= |old(content)|
      ensures Left(old(script), script) && |script| >= |old(script)| - 1
      ensures avail == capacity - |content|
      ensures Lively(old(script)) && old(script) != [] && capacity > 0 ==> avail > 0
    {
      var _ := Access();
      avail := capacity - |content|;
    }

    /** Sleeping is for a full FIFO only; it ends by a wake-up or by the timeout. */
    method Wait() returns (woken: bool)
      requires Valid() && |content| == capacity
      modifies this
      ensures Valid() && Stream() == old(Stream()) && |content| <= |old(content)|
      ensures Slept(old(script), script, woken)
      ensures Left(old(script), script) && (if woken then |script| < |old(script)| else Missed(old(script), script))
      ensures timeouts == old(timeouts) + (if woken then 0 else 1)
    {
      woken := Access();
      Waited(old(script), script, woken);
      if !woken { timeouts := timeouts + 1; }
    }

    /** Pushing demands room: the FIFO never overfills. */
    method Push(bytes: seq<Byte>)
      requires Valid() && |content| + |bytes| <= capacity
      modifies this`content, this`delivered, this`script
      ensures Valid() && Stream() == old(Stream()) + bytes
      ensures Left(old(script), script) && |script| >= |old(script)| - 1
      ensures |content| <= |old(content)| + |bytes|
    {
      var _ := Access();
      content := content + bytes;
    }

    method WriteWord(word: nat)
      requires Valid() && |content| + 4 <= capacity
      modifies this`content, this`delivered, this`script
      ensures Valid() && Stream() == old(Stream()) + Le(word, 4)
      ensures Left(old(script), script) && |script| >= |old(script)| - 1
      ensures |content| <= |old(content)| + 4
    {
      Push(Le(word, 4));
    }

    /** Pushes the next `block` bytes of the buffer, in words while they last. */
    method PushBlock(buf: seq<Byte>, p0: nat, block0: nat)
      requires Valid() && p0 + block0 <= |buf| && |content| + block0 <= capacity
      modifies this`content, this`delivered, this`script
      ensures Valid() && Stream() == old(Stream()) + buf[p0..p0 + block0]
      ensures Left(old(script), script) && |script| >= |old(script)| - block0
      ensures |content| <= |old(content)| + block0
    {
      hide Le;
      hide FromLe;
      hide Left;
      var p: nat, block: nat := p0, block0;
      ghost var rest := buf[p0..];
      LeftAll(script);
      assert rest[..0] == [];
      while block >= 4
        invariant Valid() && p0 <= p && p + block == p0 + block0 && |content| + block <= capacity
        invariant Stream() == old(Stream()) + rest[..p - p0] && |content| + block <= |old(content)| + block0
        invariant Left(old(script), script) && |script| >= |old(script)| - (p - p0)
        decreases block
      {
        ghost var now := script;
        FromLeRoundTrip(buf[p..p + 4]);
        WriteWord(FromLe(buf[p..p + 4]));
        Extend(old(Stream()), rest, p - p0, 4);
        LeftTrans(old(script), now, script);
        p, block := p + 4, block - 4;
      }
      while block > 0
        invariant Valid() && p0 <= p && p + block == p0 + block0 && |content| + block <= capacity
        invariant Stream() == old(Stream()) + rest[..p - p0] && |content| + block <= |old(content)| + block0
        invariant Left(old(script), script) && |script| >= |old(script)| - (p - p0)
        decreases block
      {
        ghost var now := script;
        Push(buf[p..p + 1]);
        Extend(old(Stream()), rest, p - p0, 1);
        LeftTrans(old(script), now, script);
        p, block := p + 1, block - 1;
      }
    }

    /** One round of the send loop: pushes what there is room for, or waits for room. */
    method Round(buf: seq<Byte>, p: nat) returns (ok: bool, n: nat)
      requires Valid() && p < |buf|
      modifies this
      ensures Valid() && p + n <= |buf| && Stream() == old(Stream()) + buf[p..p + n]
      ensures timeouts == old(timeouts) + (if ok then 0 else 1)
      ensures |content| <= |old(content)| + n && Left(old(script), script) && |script| <= |old(script)|
      ensures if ok then n > 0 || |script| < |old(script)| else n == 0 && |old(content)| == capacity
      ensures !ok ==> Missed(old(script), script)
      ensures Lively(old(script)) && old(script) != [] && capacity > 0 ==> ok && |script| >= |old(script)| - 2 * n
    {
      hide Left;
      hide Missed;
      hide Slept;
      hide Lively;
      var avail := ReadFree();
      ghost var now := script;
      LeftKeeps(old(script), now);
      var block := Min(|buf| - p, avail);
      if avail == 0 {
        n := 0;
        assert buf[p..p + n] == [];
        ok := Wait();
        LeftTrans(old(script), now, script);
        if !ok { MissedSince(old(script), now, script); }
        return;
      }
      PushBlock(buf, p, block);
      LeftTrans(old(script), now, script);
      return true, block;
    }

    /** Sends a buffer. Success delivers exactly its bytes, in order; a timeout leaves a proper
        prefix of them. It fails only by a wait on a full FIFO that was not woken: never when the
        buffer fits, nor when the other side drains something at every access for long enough. */
    method Send(buf: seq<Byte>) returns (ok: bool, ghost sent: nat)
      requires Valid()
      modifies this
      ensures Valid() && sent <= |buf|
      ensures Stream() == old(Stream()) + buf[..sent]
      ensures ok <==> sent == |buf|
      ensures timeouts == old(timeouts) + (if ok then 0 else 1)
      ensures |content| <= |old(content)| + sent
      ensures Paced(|old(content)| + |buf| <= capacity, capacity > 0, old(script), script, |buf|, ok)
    {
      hide Left;
      hide Missed;
      hide Slept;
      hide Lively;
      var p: nat := 0;
      ghost var lively := Lively(script) && capacity > 0 && |script| >= 2 * |buf|;
      LeftAll(script);
      while p < |buf|
        invariant Valid() && p <= |buf| && timeouts == old(timeouts)
        invariant Stream() == old(Stream()) + buf[..p]
        invariant |content| <= |old(content)| + p && Left(old(script), script)
        invariant lively ==> |script| >= |old(script)| - 2 * p
        decreases |script|, |buf| - p
      {
        ghost var now := script;
        LeftKeeps(old(script), now);
        var n;
        ok, n := Round(buf, p);
        Extend(old(Stream()), buf, p, n);
        LeftTrans(old(script), now, script);
        if !ok {
          MissedSince(old(script), now, script);
          return false, p;
        }
        p := p + n;
      }
      assert buf[..p] == buf;
      return true, p;
    }
  }

  lemma Waited(now: seq<Tick>, later: seq<Tick>, woken: bool)
    requires Slept(now, later, woken)
    ensures Left(now, later) && (if woken then |later| < |now| else Missed(now, later))
  {
  }

  lemma LeftAll(script: seq<Tick>)
    ensures Left(script, script)
  {
  }

  class RxFifo {
    const capacity: nat
    var content: seq<Byte>
    var incoming: seq<Byte>        // what the other side has yet to put into the FIFO
    var script: seq<Tick>
    ghost var timeouts: nat

    constructor (size: nat, stream: seq<Byte>, ticks: seq<Tick>)
      ensures Valid() && capacity == size && Pending() == stream && script == ticks && timeouts == 0
    {
      capacity, content, incoming, script, timeouts := size, [], stream, ticks, 0;
    }

    ghost predicate Valid()
      reads this
    {
      |content| <= capacity
    }

    /** Everything not yet read, in order. */
    ghost function Pending(): seq<Byte>
      reads this
    {
      content + incoming
    }

    /** The other side fills in a little. */
    method Access() returns (wake: bool)
      requires Valid()
      modifies this`content, this`incoming, this`script
      ensures Valid() && Pending() == old(Pending()) && |content| >= |old(content)|
      ensures if old(script) == [] then script == [] && !wake && content == old(content)
              else
                && script == old(script)[1..] && wake == old(script)[0].wake
                && (old(script)[0].moved > 0 && old(incoming) != [] && |old(content)| < capacity ==>
                      |content| > |old(content)|)
      ensures Left(old(script), script)
    {
      if script == [] { return false; }
      var k := Min(Min(script[0].moved, |incoming|), capacity - |content|);
      wake := script[0].wake;
      content, incoming := content + incoming[..k], incoming[k..];
      script := script[1..];
    }

    method ReadCount() returns (avail: nat)
      requires Valid()
      modifies this`content, this`incoming, this`script
      ensures Valid() && Pending() == old(Pending()) && |content| >= |old(content)|
      ensures Left(old(script), script) && |script| >= |old(script)| - 1
      ensures avail == |content|
      ensures Lively(old(script)) && old(script) != [] && capacity > 0 && old(Pending()) != [] ==> avail > 0
    {
      var _ := Access();
      avail := |content|;
    }

    /** Sleeping is for an empty FIFO only. */
    method Wait() returns (woken: bool)
      requires Valid() && content == []
      modifies this
      ensures Valid() && Pending() == old(Pending())
      ensures Slept(old(script), script, woken)
      ensures Left(old(script), script) && (if woken then |script| < |old(script)| else Missed(old(script), script))
      ensures timeouts == old(timeouts) + (if woken then 0 else 1)
    {
      woken := Access();
      Waited(old(script), script, woken);
      if !woken { timeouts := timeouts + 1; }
    }

    /** Pulling demands data: the FIFO is never read when empty. */
    method Pull(n: nat) returns (bytes: seq<Byte>)
      requires Valid() && n <= |content|
      modifies this`content, this`incoming, this`script
      ensures Valid() && |bytes| == n && old(Pending()) == bytes + Pending()
      ensures Left(old(script), script) && |script| >= |old(script)| - 1
      ensures |content| >= |old(content)| - n
    {
      var _ := Access();
      bytes, content := content[..n], content[n..];
    }

    /** Pulls `block` bytes, in words while they last. */
    method PullBlock(block0: nat) returns (buf: seq<Byte>)
      requires Valid() && block0 <= |content|
      modifies this`content, this`incoming, this`script
      ensures Valid() && |buf| == block0 && old(Pending()) == buf + Pending()
      ensures Left(old(script), script) && |script| >= |old(script)| - block0
      ensures |content| >= |old(content)| - block0
    {
      hide Le;
      hide FromLe;
      hide Left;
      var block: nat := block0;
      buf := [];
      LeftAll(script);
      while block >= 4
        invariant Valid() && |buf| + block == block0 && |content| >= |old(content)| - |buf|
        invariant old(Pending()) == buf + Pending()
        invariant Left(old(script), script) && |script| >= |old(script)| - |buf|
        decreases block
      {
        ghost var now := script;
        var bytes := Pull(4);
        FromLeRoundTrip(bytes);
        var word := FromLe(bytes);      // the word the register shows
        assert Le(word, 4) == bytes;
        Associate(buf, bytes, Pending());
        buf := buf + Le(word, 4);
        LeftTrans(old(script), now, script);
        block := block - 4;
      }
      while block > 0
        invariant Valid() && |buf| + block == block0 && |content| >= |old(content)| - |buf|
        invariant old(Pending()) == buf + Pending()
        invariant Left(old(script), script) && |script| >= |old(script)| - |buf|
        decreases block
      {
        ghost var now := script;
        var bytes := Pull(1);
        Associate(buf, bytes, Pending());
        buf := buf + bytes;
        LeftTrans(old(script), now, script);
        block := block - 1;
      }
    }

    /** One round of the receive loop: pulls what there is, or waits for data. */
    method Round(left: nat) returns (ok: bool, bytes: seq<Byte>)
      requires Valid() && left > 0
      modifies this
      ensures Valid() && |bytes| <= left && old(Pending()) == bytes + Pending()
      ensures timeouts == old(timeouts) + (if ok then 0 else 1)
      ensures |content| >= |old(content)| - |bytes| && Left(old(script), script) && |script| <= |old(script)|
      ensures if ok then bytes != [] || |script| < |old(script)| else bytes == [] && old(content) == []
      ensures !ok ==> Missed(old(script), script)
      ensures Lively(old(script)) && old(script) != [] && capacity > 0 && old(Pending()) != [] ==>
                ok && |script| >= |old(script)| - 2 * |bytes|
    {
      hide Left;
      hide Missed;
      hide Slept;
      hide Lively;
      var avail := ReadCount();
      ghost var now := script;
      LeftKeeps(old(script), now);
      var block := Min(left, avail);
      if avail == 0 {
        bytes := [];
        ok := Wait();
        LeftTrans(old(script), now, script);
        if !ok { MissedSince(old(script), now, script); }
        return;
      }
      bytes := PullBlock(block);
      LeftTrans(old(script), now, script);
      ok := true;
    }

    /** Receives a buffer: the next bytes of the stream, in order. A timeout has eaten a proper
        prefix of them. It fails only by a wait on an empty FIFO that was not woken: never when the
        bytes are there already, nor when they are to come and the other side adds something at
        every access for long enough. */
    method Recv(count: nat) returns (ok: bool, buf: seq<Byte>)
      requires Valid()
      modifies this
      ensures Valid() && old(Pending()) == buf + Pending() && |buf| <= count
      ensures ok <==> |buf| == count
      ensures timeouts == old(timeouts) + (if ok then 0 else 1)
      ensures |content| >= |old(content)| - |buf|
      ensures Paced(count <= |old(content)|, capacity > 0 && count <= |old(Pending())|, old(script), script, count, ok)
    {
      hide Left;
      hide Missed;
      hide Slept;
      hide Lively;
      buf := [];
      ghost var lively := Lively(script) && capacity > 0 && |script| >= 2 * count && count <= |Pending()|;
      LeftAll(script);
      while |buf| < count
        invariant Valid() && |buf| <= count && timeouts == old(timeouts)
        invariant old(Pending()) == buf + Pending()
        invariant |content| >= |old(content)| - |buf| && Left(old(script), script)
        invariant lively ==> |script| >= |old(script)| - 2 * |buf|
        decreases |script|, count - |buf|
      {
        ghost var now := script;
        LeftKeeps(old(script), now);
        var more;
        ok, more := Round(count - |buf|);
        LeftTrans(old(script), now, script);
        if !ok {
          MissedSince(old(script), now, script);
          return false, buf;
        }
        Associate(buf, more, Pending());
        buf := buf + more;
      }
      ok := true;
    }
  }
}
