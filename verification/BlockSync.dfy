/** Syncing a block of cached values: one register at a time, or coalescing runs of adjacent
    registers into raw writes. */
module BlockSync {
  import opened Wrappers
  import opened Arith
  import opened Seqs
  import opened RegCache

  datatype RegVal = RegVal(reg: Reg, val: Val)

  /** A cache block, the presence bitmap that goes with it (None: no bitmap, all present), and the
      register of its first value. */
  datatype Block = Block(values: seq<Val>, present: Option<set<nat>>, base: Reg)

  function RegAt(c: Config, b: Block, i: nat): Reg {
    b.base + i * c.stride
  }

  predicate Present(b: Block, i: nat) {
    b.present.Some? ==> i in b.present.value
  }

  /** Whether value i has to reach the chip. */
  predicate Wanted(c: Config, nsd: bool, b: Block, i: nat)
    requires i < |b.values|
  {
    Present(b, i) && NeedsSync(c, nsd, RegAt(c, b, i), b.values[i])
  }

  /** The register writes a sync of values lo..hi-1 owes the chip, in order. */
  function Owed(c: Config, nsd: bool, b: Block, lo: nat, hi: nat): seq<RegVal>
    requires lo <= hi <= |b.values|
    decreases hi - lo
  {
    if lo == hi then []
    else
      var before := Owed(c, nsd, b, lo, hi - 1);
      if Wanted(c, nsd, b, hi - 1) then before + [RegVal(RegAt(c, b, hi - 1), b.values[hi - 1])] else before
  }

  /** What a raw write of `count` values from `data` on does to the chip, register by register. */
  function RawWrites(c: Config, b: Block, base: Reg, data: nat, count: nat): seq<RegVal>
    requires data + count <= |b.values|
  {
    seq(count, k requires 0 <= k < count => RegVal(base + k * c.stride, b.values[data + k]))
  }

  /** Writes to registers that fail. */
  type Bad = set<Reg>

  ghost predicate AllGood(ws: seq<RegVal>, bad: Bad) {
    forall i :: 0 <= i < |ws| ==> ws[i].reg !in bad
  }

  /** The first n writes, all good, are what the chip has seen on top of `before`. */
  ghost predicate Written(log: seq<RegVal>, before: seq<RegVal>, ws: seq<RegVal>, n: nat, bad: Bad) {
    n <= |ws| && log == before + ws[..n] && AllGood(ws[..n], bad)
  }

  /** How far a raw write gets that meets a bad register: no further than the register before. */
  function Reached(ws: seq<RegVal>, bad: Bad, limit: nat): (n: nat)
    ensures n <= |ws| && AllGood(ws[..n], bad)
  {
    if ws == [] || limit == 0 || ws[0].reg in bad then 0
    else
      var n := Reached(ws[1..], bad, limit - 1);
      assert ws[..n + 1] == [ws[0]] + ws[1..][..n];
      n + 1
  }

  class Chip {
    var log: seq<RegVal>          // register writes the chip has taken
    var cacheBypass: bool

    constructor ()
      ensures log == [] && !cacheBypass
    {
      log, cacheBypass := [], false;
    }

    method SyncVal(c: Config, nsd: bool, reg: Reg, val: Val, bad: Bad) returns (ok: bool)
      modifies this
      ensures ok <==> (NeedsSync(c, nsd, reg, val) ==> reg !in bad)
      ensures log == old(log) + (if ok && NeedsSync(c, nsd, reg, val) then [RegVal(reg, val)] else [])
      ensures cacheBypass == (!NeedsSync(c, nsd, reg, val) && old(cacheBypass))
    {
      if !NeedsSync(c, nsd, reg, val) { return true; }
      cacheBypass := true;
      ok := reg !in bad;
      if ok { log := log + [RegVal(reg, val)]; }
      cacheBypass := false;
    }

    /** One register at a time: stops at the first bad register that is owed a write. */
    method SyncBlockSingle(c: Config, nsd: bool, b: Block, start: nat, end: nat, bad: Bad)
      returns (ok: bool, ghost n: nat)
      requires start <= end <= |b.values|
      modifies this
      ensures Written(log, old(log), Owed(c, nsd, b, start, end), n, bad)
      ensures ok <==> n == |Owed(c, nsd, b, start, end)|
      ensures !ok ==> Owed(c, nsd, b, start, end)[n].reg in bad
    {
      hide NeedsSync;
      for i := start to end
        invariant log == old(log) + Owed(c, nsd, b, start, i) && AllGood(Owed(c, nsd, b, start, i), bad)
      {
        var regtmp := b.base + i * c.stride;
        NotWanted(c, nsd, b, i);
        OwedPrefix(c, nsd, b, start, i + 1, end);
        if !Present(b, i) || regtmp !in c.writeable { continue; }
        var done := SyncVal(c, nsd, regtmp, b.values[i], bad);
        if !done {
          n := |Owed(c, nsd, b, start, i)|;
          assert Owed(c, nsd, b, start, end)[..n] == Owed(c, nsd, b, start, i);
          return false, n;
        }
      }
      n := |Owed(c, nsd, b, start, end)|;
      assert Owed(c, nsd, b, start, end)[..n] == Owed(c, nsd, b, start, end);
      ok := true;
    }

    /** Writes out the pending run, if there is one: the values from `data` up to register `cur`. If
        it meets a bad register, some of the values before it have reached the chip, at most
        `limit`. */
    method Flush(c: Config, b: Block, data: Option<nat>, base: Reg, cur: Reg, bad: Bad, limit: nat)
      returns (ok: bool, ghost n: nat)
      requires c.stride > 0
      requires data.Some? ==> cur >= base && data.value + (cur - base) / c.stride <= |b.values|
      modifies this
      ensures var ws := if data.Some? then RawWrites(c, b, base, data.value, (cur - base) / c.stride) else [];
              && Written(log, old(log), ws, n, bad)
              && (ok <==> AllGood(ws, bad)) && (ok ==> n == |ws|)
    {
      if data.None? { return true, 0; }
      var count := (cur - base) / c.stride;
      cacheBypass := true;
      var ws := RawWrites(c, b, base, data.value, count);
      hide RawWrites;
      ok := Reached(ws, bad, |ws|) == |ws|;
      ReachedAll(ws, bad);
      if ok {
        log, n := log + ws, |ws|;
        assert ws[..n] == ws;
      } else {
        log, n := log + ws[..Reached(ws, bad, limit)], Reached(ws, bad, limit);
      }
      cacheBypass := false;
    }

    /** Coalescing: the chip sees the same registers and values in the same order, and the sync fails
        exactly when one at a time fails; then what the chip has seen is no more than one at a time
        would have written. */
    method SyncBlockRaw(c: Config, nsd: bool, b: Block, start: nat, end: nat, bad: Bad, limit: nat)
      returns (ok: bool, ghost n: nat)
      requires c.stride > 0 && start <= end <= |b.values|
      modifies this
      ensures Written(log, old(log), Owed(c, nsd, b, start, end), n, bad)
      ensures ok <==> AllGood(Owed(c, nsd, b, start, end), bad)
      ensures ok ==> n == |Owed(c, nsd, b, start, end)|
    {
      hide Pending;
      hide RawWrites;
      hide NeedsSync;
      hide AllGood;
      hide Written;
      var regtmp: nat, base: nat := 0, 0;
      var data: Option<nat> := None;
      ghost var before := log;
      ghost var sent: seq<RegVal> := [];
      PendingNone(c, b, start);
      NothingBad(bad);
      for i := start to end
        invariant data.Some? ==> start <= data.value < i && base == RegAt(c, b, data.value)
        invariant i > start ==> regtmp == RegAt(c, b, i - 1)
        invariant log == before + sent && AllGood(sent, bad)
        invariant sent + Pending(c, b, data, i) == Owed(c, nsd, b, start, i)
      {
        regtmp := b.base + i * c.stride;
        if !Present(b, i) || regtmp !in c.writeable || !NeedsSync(c, nsd, regtmp, b.values[i]) {
          NotWanted(c, nsd, b, i);
          FlushIsPending(c, b, data, i);
          OwedPrefix(c, nsd, b, start, i, end);
          ghost var run := Pending(c, b, data, i);
          if data.None? { PendingNone(c, b, i); }
          ok, n := Flush(c, b, data, base, regtmp, bad, limit);
          Flushed(log, before, sent, run, Owed(c, nsd, b, start, end), n, ok, bad);
          if !ok { return false, |sent| + n; }
          sent := sent + run;
          data := None;
          PendingNone(c, b, i + 1);
          continue;
        }
        PendingGrows(c, b, data, i);
        Associate(sent, Pending(c, b, data, i), [RegVal(regtmp, b.values[i])]);
        if data.None? {
          data := Some(i);
          base := regtmp;
        }
      }
      if end > start {
        FlushIsPending(c, b, data, end);
        assert regtmp + c.stride == RegAt(c, b, end);
      }
      ghost var run := Pending(c, b, data, end);
      if data.None? { PendingNone(c, b, end); }
      ok, n := Flush(c, b, data, base, regtmp + c.stride, bad, limit);
      Flushed(log, before, sent, run, Owed(c, nsd, b, start, end), n, ok, bad);
      n := |sent| + n;
    }
  }

  lemma NothingBad(bad: Bad)
    ensures AllGood([], bad)
  {
  }

  lemma {:induction false} ReachedAll(ws: seq<RegVal>, bad: Bad)
    ensures Reached(ws, bad, |ws|) == |ws| <==> AllGood(ws, bad)
  {
    if ws != [] { ReachedAll(ws[1..], bad); }
  }

  /** A run flushed after `sent`, both at the head of what is owed. */
  lemma Flushed(log: seq<RegVal>, before: seq<RegVal>, sent: seq<RegVal>, run: seq<RegVal>, owed: seq<RegVal>,
                n: nat, ok: bool, bad: Bad)
    requires sent + run <= owed && AllGood(sent, bad)
    requires Written(log, before + sent, run, n, bad) && (ok <==> AllGood(run, bad)) && (ok ==> n == |run|)
    ensures Written(log, before, owed, |sent| + n, bad)
    ensures ok ==> AllGood(sent + run, bad) && log == before + (sent + run)
    ensures !ok ==> !AllGood(owed, bad)
  {
    assert owed[..|sent| + n] == sent + run[..n];
    if ok { assert run[..n] == run; }
    if !ok {
      var i :| 0 <= i < |run| && run[i].reg in bad;
      assert owed[|sent| + i] == run[i];
    }
  }

  lemma {:induction false} OwedPrefix(c: Config, nsd: bool, b: Block, lo: nat, mid: nat, hi: nat)
    requires lo <= mid <= hi <= |b.values|
    ensures Owed(c, nsd, b, lo, mid) <= Owed(c, nsd, b, lo, hi)
    decreases hi
  {
    if mid < hi { OwedPrefix(c, nsd, b, lo, mid, hi - 1); }
  }

  lemma NotWanted(c: Config, nsd: bool, b: Block, i: nat)
    requires i < |b.values|
    ensures Wanted(c, nsd, b, i) <==>
              && Present(b, i) && RegAt(c, b, i) in c.writeable
              && NeedsSync(c, nsd, RegAt(c, b, i), b.values[i])
  {
  }

  lemma PendingNone(c: Config, b: Block, i: nat)
    requires i <= |b.values|
    ensures Pending(c, b, None, i) == []
  {
  }

  /** The run being gathered: from `data` up to, not including, i. */
  function Pending(c: Config, b: Block, data: Option<nat>, i: nat): seq<RegVal>
    requires i <= |b.values|
  {
    if data.Some? && data.value <= i then RawWrites(c, b, RegAt(c, b, data.value), data.value, i - data.value) else []
  }

  lemma FlushIsPending(c: Config, b: Block, data: Option<nat>, i: nat)
    requires c.stride > 0 && i <= |b.values| && (data.Some? ==> data.value <= i)
    ensures data.Some? ==>
              var base, cur := RegAt(c, b, data.value), RegAt(c, b, i);
              && cur >= base && (cur - base) / c.stride == i - data.value
              && RawWrites(c, b, base, data.value, (cur - base) / c.stride) == Pending(c, b, data, i)
  {
    if data.Some? {
      var d, n := data.value, i - data.value;
      assert i * c.stride - d * c.stride == c.stride * n;
      MulNonNegative(c.stride, n);
      ModUnique(c.stride * n, c.stride, n, 0);
    }
  }

  lemma PendingGrows(c: Config, b: Block, data: Option<nat>, i: nat)
    requires i < |b.values| && (data.Some? ==> data.value <= i)
    ensures var data' := if data.None? then Some(i) else data;
            Pending(c, b, data', i + 1) == Pending(c, b, data, i) + [RegVal(RegAt(c, b, i), b.values[i])]
  {
    if data.Some? {
      var d := data.value;
      assert RegAt(c, b, d) + (i - d) * c.stride == RegAt(c, b, i);
    }
  }

  /** w is the write of value i: the value is present, its register can be written, and it is not a
      default that may be skipped. */
  ghost predicate IsOwed(c: Config, nsd: bool, b: Block, i: nat, w: RegVal)
    requires i < |b.values|
  {
    && w == RegVal(b.base + i * c.stride, b.values[i]) && w.reg in c.writeable
    && (b.present.None? || i in b.present.value)
    && (nsd ==> forall k :: 0 <= k < |c.defaults| ==> c.defaults[k] != RegDefault(w.reg, w.val))
  }

  /** Nothing owed is lost or repeated: value i is written, with its own register, if and only if
      it is wanted. */
  lemma {:induction false} OwedExactly(c: Config, nsd: bool, b: Block, lo: nat, hi: nat)
    requires lo <= hi <= |b.values| && c.stride > 0
    ensures forall w :: w in Owed(c, nsd, b, lo, hi) <==> exists i :: lo <= i < hi && IsOwed(c, nsd, b, i, w)
    ensures forall j, k :: 0 <= j < k < |Owed(c, nsd, b, lo, hi)| ==>
              Owed(c, nsd, b, lo, hi)[j].reg < Owed(c, nsd, b, lo, hi)[k].reg
    ensures forall j :: 0 <= j < |Owed(c, nsd, b, lo, hi)| ==> Owed(c, nsd, b, lo, hi)[j].reg < RegAt(c, b, hi)
    decreases hi - lo
  {
    hide Wanted;
    if lo < hi {
      OwedExactly(c, nsd, b, lo, hi - 1);
      assert RegAt(c, b, hi) == RegAt(c, b, hi - 1) + c.stride;
      var before, last := Owed(c, nsd, b, lo, hi - 1), RegVal(RegAt(c, b, hi - 1), b.values[hi - 1]);
      forall w
        ensures w in Owed(c, nsd, b, lo, hi) <==> exists i :: lo <= i < hi && IsOwed(c, nsd, b, i, w)
      {
        OwedIsWanted(c, nsd, b, hi - 1, w);
        hide IsOwed;
        if w in before {
          var i :| lo <= i < hi - 1 && IsOwed(c, nsd, b, i, w);
        } else if IsOwed(c, nsd, b, hi - 1, w) {
          assert w == last && last in Owed(c, nsd, b, lo, hi);
        }
      }
    }
  }

  lemma OwedIsWanted(c: Config, nsd: bool, b: Block, i: nat, w: RegVal)
    requires i < |b.values|
    ensures IsOwed(c, nsd, b, i, w) <==> Wanted(c, nsd, b, i) && w == RegVal(RegAt(c, b, i), b.values[i])
  {
    if w == RegVal(RegAt(c, b, i), b.values[i]) && HasDefault(c, w.reg, w.val) {
      var k :| 0 <= k < |c.defaults| && c.defaults[k] == RegDefault(w.reg, w.val);
    }
  }
}
