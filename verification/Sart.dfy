/** The SART DMA filter: sixteen register slots, some owned by the bootloader, the rest handed out
    to regions and taken back. */
module Sart {
  import opened Wrappers
  import opened Arith
  import Words

  const SLOTS := 16
  const GRAIN := 4096          // both shifts are 12
  const WORD := 0x1_0000_0000  // registers are 32 bits wide

  /** Register layouts: t8015, t8103 and t6000. */
  datatype Version = V0 | V2 | V3 {
    function FlagsAllow(): nat {
      if V0? then 0xf else 0xff
    }
    function SizeMax(): nat {
      match this
      case V0 => 0x7ffff
      case V2 => 0xffffff
      case V3 => 0x3fffffff
    }
    /** Width of the size field in the config register, as a power of two (V0 and V2). */
    function SizeField(): nat {
      if V0? then 0x80000 else 0x1000000
    }
    function FlagsField(): nat {
      if V0? then 32 else 256
    }
  }

  /** The raw registers of one slot; `size` exists only in V3. */
  datatype Slot = Slot(config: nat, paddr: nat, size: nat)

  datatype Region = Region(paddr: nat, size: nat)
  datatype Entry = Entry(flags: nat, region: Region)

  function GetEntry(v: Version, s: Slot): Entry {
    if v.V3? then Entry(s.config % 256, Region(s.paddr * GRAIN, s.size * GRAIN))
    else Entry((s.config / 0x1000000) % v.FlagsField(), Region(s.paddr * GRAIN, (s.config % v.SizeField()) * GRAIN))
  }

  /** What the three register writes leave; values are cut to their fields. */
  function SetEntry(v: Version, s: Slot, flags: nat, paddrShifted: nat, sizeShifted: nat): Slot {
    if v.V3? then Slot(flags % WORD, paddrShifted % WORD, sizeShifted % WORD)
    else Slot((flags % v.FlagsField()) * 0x1000000 + sizeShifted % v.SizeField(), paddrShifted % WORD, s.size)
  }

  /** A region the driver may add: the checks of sart_set_entry. */
  predicate Acceptable(v: Version, r: Region) {
    r.size % GRAIN == 0 && r.paddr % GRAIN == 0 && r.size / GRAIN <= v.SizeMax()
  }

  /** The address register holds 32 bits of page number. */
  predicate InRange(r: Region) {
    r.paddr < WORD * GRAIN
  }

  const NOTHING := Region(0, 0)

  /** The region a slot shows once an acceptable region has been written to it. */
  function Stored(r: Region): Region {
    Region(((r.paddr / GRAIN) % WORD) * GRAIN, r.size)
  }

  /** What is written reads back; an address reads back if and only if it is in range. */
  lemma ReadBack(v: Version, s: Slot, flags: nat, r: Region)
    requires flags <= v.FlagsAllow() && Acceptable(v, r)
    ensures var e := GetEntry(v, SetEntry(v, s, flags, r.paddr / GRAIN, r.size / GRAIN));
            && e == Entry(flags, Stored(r))
            && (e.region == r <==> InRange(r))
  {
    var n := r.size / GRAIN;
    AddressReadBack(r);
    SizeReadBack(v, s, flags, n, r.paddr / GRAIN);
    hide SetEntry;
    assert n * GRAIN == r.size;
  }

  /** What a written slot holds in its registers. */
  lemma RawLayout(v: Version, s: Slot, flags: nat, n: nat, p: nat)
    requires flags <= v.FlagsAllow() && n <= v.SizeMax() && p < WORD
    ensures var slot := SetEntry(v, s, flags, p, n);
            && slot.paddr == p
            && (v.V3? ==> slot.config == flags && slot.size == n)
            && (!v.V3? ==> slot.config / 0x1000000 == flags && slot.config % 0x1000000 == n && slot.size == s.size)
  {
    if !v.V3? {
      SmallMod(flags, v.FlagsField());
      SmallMod(n, v.SizeField());
      Unpack(flags, n, 0x1000000);
    }
  }

  /** The limits of each version, in numbers: flags of an allowed slot, and the largest region. */
  lemma VersionLimits(r: Region)
    requires r.paddr % GRAIN == 0 && r.size % GRAIN == 0
    ensures V0.FlagsAllow() == 15 && V2.FlagsAllow() == 255 && V3.FlagsAllow() == 255
    ensures Acceptable(V0, r) <==> r.size <= 0x7fff_f000
    ensures Acceptable(V2, r) <==> r.size <= 0xf_ffff_f000
    ensures Acceptable(V3, r) <==> r.size <= 0x3ff_ffff_f000
  {
  }

  lemma SizeReadBack(v: Version, s: Slot, flags: nat, n: nat, p: nat)
    requires flags <= v.FlagsAllow() && n <= v.SizeMax()
    ensures GetEntry(v, SetEntry(v, s, flags, p, n)) == Entry(flags, Region((p % WORD) * GRAIN, n * GRAIN))
  {
    var q := p % WORD;
    if v.V3? {
      assert SetEntry(v, s, flags, p, n) == Slot(flags, q, n);
    } else {
      SmallMod(flags, v.FlagsField());
      SmallMod(n, v.SizeField());
      assert SetEntry(v, s, flags, p, n) == Slot(flags * 0x1000000 + n, q, s.size);
      hide SetEntry;
      Unpack(flags, n, v.SizeField());
    }
  }

  lemma SmallMod(x: nat, d: nat)
    requires x < d
    ensures x % d == x
  {
    ModUnique(x, d, 0, x);
  }

  lemma Unpack(flags: nat, n: nat, field: nat)
    requires field == 0x80000 || field == 0x1000000
    requires n < field
    ensures (flags * 0x1000000 + n) / 0x1000000 == flags && (flags * 0x1000000 + n) % field == n
  {
    var config := flags * 0x1000000 + n;
    ModUnique(config, 0x1000000, flags, n);
    if field == 0x80000 { ModUnique(config, field, flags * 32, n); }
  }

  lemma AddressReadBack(r: Region)
    requires r.paddr % GRAIN == 0
    ensures ((r.paddr / GRAIN) % WORD) * GRAIN == r.paddr <==> InRange(r)
  {
    var p := r.paddr / GRAIN;
    assert p * GRAIN == r.paddr;
    if p < WORD { assert p % WORD == p; }
  }

  lemma ClearedReads(v: Version, s: Slot)
    ensures GetEntry(v, SetEntry(v, s, 0, 0, 0)) == Entry(0, NOTHING)
  {
  }

  // --------------------------------------------------------------------------
  // The filter as a value

  datatype Filter = Filter(v: Version, slots: seq<Slot>, prot: set<nat>, used: set<nat>)

  datatype Code = Ok | Einval | Ebusy
  datatype Outcome = Outcome(filter: Filter, code: Code)

  function At(s: Filter, i: nat): Entry
    requires i < |s.slots|
  {
    GetEntry(s.v, s.slots[i])
  }

  /** First slot from i on that is neither protected nor in use. */
  function FreeFrom(s: Filter, i: nat): (r: Option<nat>)
    ensures r.Some? ==> i <= r.value < SLOTS && r.value !in s.prot && r.value !in s.used
    ensures forall k :: i <= k < (if r.Some? then r.value else SLOTS) ==> k in s.prot || k in s.used
    decreases SLOTS - i
  {
    if i >= SLOTS then None
    else if i !in s.prot && i !in s.used then Some(i)
    else FreeFrom(s, i + 1)
  }

  function Add(s: Filter, r: Region): Outcome
    requires |s.slots| == SLOTS
  {
    var free := FreeFrom(s, 0);
    if free.None? then Outcome(s, Ebusy)
    else if !Acceptable(s.v, r) then Outcome(s, Einval)
    else
      var i := free.value;
      Outcome(s.(slots := s.slots[i := SetEntry(s.v, s.slots[i], s.v.FlagsAllow(), r.paddr / GRAIN, r.size / GRAIN)],
                 used := s.used + {i}), Ok)
  }

  /** First unprotected slot from i on that shows the region, in use or not. */
  function MatchFrom(s: Filter, r: Region, i: nat): (m: Option<nat>)
    requires |s.slots| == SLOTS
    ensures m.Some? ==> i <= m.value < SLOTS && m.value !in s.prot && At(s, m.value).region == r
    ensures forall k :: i <= k < (if m.Some? then m.value else SLOTS) ==> k in s.prot || At(s, k).region != r
    decreases SLOTS - i
  {
    if i >= SLOTS then None
    else if i !in s.prot && At(s, i).region == r then Some(i)
    else MatchFrom(s, r, i + 1)
  }

  function Remove(s: Filter, r: Region): Outcome
    requires |s.slots| == SLOTS
  {
    var m := MatchFrom(s, r, 0);
    if m.None? then Outcome(s, Einval)
    else
      var i := m.value;
      Outcome(s.(slots := s.slots[i := SetEntry(s.v, s.slots[i], 0, 0, 0)], used := s.used - {i}), Ok)
  }

  // --------------------------------------------------------------------------
  // Live regions

  /** The regions of the used slots below n. */
  function LiveBelow(s: Filter, n: nat): multiset<Region>
    requires n <= |s.slots|
  {
    if n == 0 then multiset{}
    else if n - 1 in s.used then LiveBelow(s, n - 1) + multiset{At(s, n - 1).region}
    else LiveBelow(s, n - 1)
  }

  function Live(s: Filter): multiset<Region>
    requires |s.slots| == SLOTS
  {
    LiveBelow(s, SLOTS)
  }

  lemma {:induction false} LiveMember(s: Filter, n: nat, r: Region)
    requires n <= |s.slots|
    ensures r in LiveBelow(s, n) <==> exists i :: 0 <= i < n && i in s.used && At(s, i).region == r
  {
    if n > 0 { LiveMember(s, n - 1, r); }
  }

  lemma {:induction false} LiveCount(s: Filter, n: nat)
    requires n <= |s.slots|
    ensures |LiveBelow(s, n)| == |set i | 0 <= i < n && i in s.used|
  {
    if n > 0 {
      LiveCount(s, n - 1);
      var below := set i | 0 <= i < n - 1 && i in s.used;
      var upto := set i | 0 <= i < n && i in s.used;
      assert upto == if n - 1 in s.used then below + {n - 1} else below;
    } else {
      assert (set i | 0 <= i < n && i in s.used) == {};
    }
  }

  /** Slot i's share of the live regions. */
  function Share(s: Filter, i: nat): multiset<Region>
    requires i < |s.slots|
  {
    if i in s.used then multiset{At(s, i).region} else multiset{}
  }

  /** Changing slot i, and whether it is used, changes the live regions by that slot alone. */
  lemma {:induction false} LiveUpdate(s: Filter, s': Filter, i: nat, n: nat)
    requires n <= |s.slots| == |s'.slots| && s'.v == s.v && i < |s.slots|
    requires forall k :: 0 <= k < |s.slots| && k != i ==> s'.slots[k] == s.slots[k] && (k in s'.used <==> k in s.used)
    ensures i >= n ==> LiveBelow(s', n) == LiveBelow(s, n)
    ensures i < n ==> LiveBelow(s', n) + Share(s, i) == LiveBelow(s, n) + Share(s', i)
  {
    if n > 0 {
      LiveUpdate(s, s', i, n - 1);
      assert LiveBelow(s, n) == LiveBelow(s, n - 1) + Share(s, n - 1);
      assert LiveBelow(s', n) == LiveBelow(s', n - 1) + Share(s', n - 1);
      if n - 1 != i {
        assert Share(s', n - 1) == Share(s, n - 1);
        Swap(LiveBelow(s', n - 1), Share(s, n - 1), Share(s, i));
        Swap(LiveBelow(s, n - 1), Share(s, n - 1), Share(s', i));
      } else {
        Swap(LiveBelow(s, n - 1), Share(s', i), Share(s, i));
      }
    }
  }

  lemma Swap(a: multiset<Region>, b: multiset<Region>, c: multiset<Region>)
    ensures (a + b) + c == (a + c) + b
  {
  }

  lemma TakeOut(a: multiset<Region>, r: Region)
    ensures (a + multiset{r}) - multiset{r} == a
    ensures r !in a ==> a - multiset{r} == a
  {
  }

  // --------------------------------------------------------------------------
  // The invariant

  /** `boot` is the filter as probed. Active slots are the bootloader's and the used ones; a slot
      that is not in use but still shows a region has no used slot above it. */
  ghost predicate Inv(s: Filter, boot: Filter) {
    && s.v == boot.v && s.prot == boot.prot && |s.slots| == |boot.slots| == SLOTS
    && (forall i :: i in s.prot || i in s.used ==> i < SLOTS)
    && s.prot !! s.used
    && (forall i :: 0 <= i < SLOTS && i in s.prot ==> s.slots[i] == boot.slots[i] && At(s, i).flags != 0)
    && (forall i :: 0 <= i < SLOTS && i in s.used ==> At(s, i).flags == s.v.FlagsAllow())
    && (forall i :: 0 <= i < SLOTS && i !in s.prot && i !in s.used ==> At(s, i).flags == 0)
    && (forall i, k :: 0 <= i < k < SLOTS && i !in s.prot && i !in s.used && At(s, i).region != NOTHING ==>
        k !in s.used)
  }

  /** The probe scan: every slot with flags set is the bootloader's. */
  function Probe(v: Version, slots: seq<Slot>): Filter
    requires |slots| == SLOTS
  {
    Filter(v, slots, set i | 0 <= i < SLOTS && GetEntry(v, slots[i]).flags != 0, {})
  }

  /** Some binary digit below n is one. */
  ghost predicate AnyBit(x: nat, lo: nat, hi: nat) {
    exists k :: lo <= k < hi && (x / Words.Pow2(k)) % 2 == 1
  }

  lemma {:induction false} LowBits(x: nat, n: nat)
    ensures x % Words.Pow2(n) != 0 <==> AnyBit(x, 0, n)
  {
    if n > 0 {
      var p := Words.Pow2(n - 1);
      LowBits(x, n - 1);
      TopBit(x, p);
      assert AnyBit(x, 0, n) <==> AnyBit(x, 0, n - 1) || (x / p) % 2 == 1;
    }
  }

  lemma TopBit(x: nat, p: nat)
    requires p > 0
    ensures x % (2 * p) != 0 <==> x % p != 0 || (x / p) % 2 == 1
  {
    var q, r := x / p, x % p;
    DivMod(x, p);
    DivMod(q, 2);
    Distribute(p, 2 * (q / 2), q % 2);
    assert x == (2 * p) * (q / 2) + (p * (q % 2) + r);
    ModUnique(x, 2 * p, q / 2, p * (q % 2) + r);
  }

  /** The region any slot shows: page number in the address register, page count in the low 19 or 24 bits
      of the config register or in a register of its own. */
  lemma ShownRegion(v: Version, s: Slot)
    ensures var r := GetEntry(v, s).region;
            && r.paddr == 4096 * s.paddr
            && (v.V0? ==> r.size == 4096 * (s.config % 0x80000))
            && (v.V2? ==> r.size == 4096 * (s.config % 0x1000000))
            && (v.V3? ==> r.size == 4096 * s.size)
  {
  }

  /** A slot is the bootloader's exactly if any of its flag bits is set: bits 24 to 28 of the config
      register in the first version, 24 to 31 in the second, 0 to 7 in the third. */
  lemma ProtectedBits(v: Version, slots: seq<Slot>, i: nat)
    requires |slots| == SLOTS && i < SLOTS
    ensures i in Probe(v, slots).prot <==>
              if v.V3? then AnyBit(slots[i].config, 0, 8)
              else AnyBit(slots[i].config / 0x1000000, 0, if v.V0? then 5 else 8)
  {
    assert Words.Pow2(3) == 8 && Words.Pow2(5) == 32 && Words.Pow2(8) == 256;
    hide Words.Pow2;
    LowBits(slots[i].config, 8);
    LowBits(slots[i].config / 0x1000000, 5);
    LowBits(slots[i].config / 0x1000000, 8);
  }

  lemma ProbeInv(v: Version, slots: seq<Slot>)
    requires |slots| == SLOTS
    ensures Inv(Probe(v, slots), Probe(v, slots)) && Live(Probe(v, slots)) == multiset{}
  {
    LiveCount(Probe(v, slots), SLOTS);
  }

  /** An accepted region joins the live ones, as the registers hold it; a refused one changes nothing, and it is refused
      exactly for its shape or because no slot is left. */
  lemma {:induction false} AddCorrect(s: Filter, boot: Filter, r: Region)
    requires Inv(s, boot)
    ensures var o := Add(s, r);
            && Inv(o.filter, boot)
            && o.code == (if |Live(s)| + |s.prot| == SLOTS then Ebusy else if Acceptable(s.v, r) then Ok else Einval)
            && Live(o.filter) == (if o.code == Ok then Live(s) + multiset{Stored(r)} else Live(s))
            && (InRange(r) && o.code == Ok ==> Stored(r) == r)
  {
    hide LiveBelow;
    hide GetEntry;
    hide SetEntry;
    Room(s, boot);
    var free := FreeFrom(s, 0);
    if free.Some? && Acceptable(s.v, r) {
      var i := free.value;
      ReadBack(s.v, s.slots[i], s.v.FlagsAllow(), r);
      LiveUpdate(s, Add(s, r).filter, i, SLOTS);
    }
  }

  lemma Room(s: Filter, boot: Filter)
    requires Inv(s, boot)
    ensures FreeFrom(s, 0).None? <==> |Live(s)| + |s.prot| == SLOTS
  {
    hide LiveBelow;
    hide GetEntry;
    hide FreeFrom;
    LiveCount(s, SLOTS);
    assert (set i | 0 <= i < SLOTS && i in s.used) == s.used;
    hide At;
    AllTaken(s.used, s.prot);
  }

  /** Two disjoint sets of slots leave none over exactly if they count up to all of them. */
  lemma AllTaken(a: set<nat>, b: set<nat>)
    requires a !! b && forall i :: i in a || i in b ==> i < SLOTS
    ensures (forall i :: 0 <= i < SLOTS ==> i in a || i in b) <==> |a| + |b| == SLOTS
  {
    hide Below;
    var taken := a + b;
    assert |taken| == |a| + |b|;
    BelowCount(SLOTS);
    if i :| 0 <= i < SLOTS && i !in a && i !in b {
      Subset(taken, Below(SLOTS) - {i});
    } else {
      assert taken == Below(SLOTS);
    }
  }

  function Below(n: nat): (r: set<nat>)
    ensures forall i: nat :: i in r <==> i < n
  {
    if n == 0 then {} else Below(n - 1) + {n - 1}
  }

  lemma {:induction false} BelowCount(n: nat)
    ensures |Below(n)| == n
  {
    if n > 0 { BelowCount(n - 1); }
  }

  lemma {:induction false} Subset(a: set<nat>, b: set<nat>)
    requires a <= b
    ensures |a| <= |b|
  {
    if a != {} {
      var x :| x in a;
      Subset(a - {x}, b - {x});
    }
  }

  /** The slot a remove picks: in use if the region is live at all, even when a slot never used
      shows the same region. The empty region at address zero, which every cleared slot shows, is the
      one exception. */
  lemma MatchIsLive(s: Filter, boot: Filter, r: Region)
    requires Inv(s, boot)
    ensures var m := MatchFrom(s, r, 0);
            && (m.Some? && m.value in s.used ==> r in Live(s))
            && (r in Live(s) ==> m.Some? && (r != NOTHING ==> m.value in s.used))
  {
    hide LiveBelow;
    hide GetEntry;
    hide MatchFrom;
    LiveMember(s, SLOTS, r);
  }

  lemma ClearInv(s: Filter, boot: Filter, i: nat)
    requires Inv(s, boot) && i < SLOTS && i !in s.prot
    ensures Inv(s.(slots := s.slots[i := SetEntry(s.v, s.slots[i], 0, 0, 0)], used := s.used - {i}), boot)
  {
    ClearedReads(s.v, s.slots[i]);
    hide GetEntry;
    hide SetEntry;
  }

  /** Removing a live region takes exactly it off the live ones; removing anything else leaves the
      active entries alone. For the empty region at zero this holds exactly if the first slot that
      shows it is in use. */
  lemma {:induction false} RemoveCorrect(s: Filter, boot: Filter, r: Region)
    requires Inv(s, boot)
    ensures var o := Remove(s, r);
            var m := MatchFrom(s, r, 0);
            && Inv(o.filter, boot)
            && (r in Live(s) ==> o.code == Ok)
            && (Live(o.filter) == Live(s) - multiset{r} <==>
                  (r == NOTHING && r in Live(s) ==> m.Some? && m.value in s.used))
  {
    hide LiveBelow;
    hide GetEntry;
    hide MatchFrom;
    MatchIsLive(s, boot, r);
    RemoveExact(s, boot, r);
    TakeOne(Live(s), r);
  }

  lemma RemoveExact(s: Filter, boot: Filter, r: Region)
    requires Inv(s, boot)
    ensures var o := Remove(s, r);
            var m := MatchFrom(s, r, 0);
            && Inv(o.filter, boot) && (o.code == Ok <==> m.Some?)
            && Live(o.filter) == (if m.Some? && m.value in s.used then Live(s) - multiset{r} else Live(s))
  {
    hide LiveBelow;
    hide GetEntry;
    hide SetEntry;
    var m := MatchFrom(s, r, 0);
    if m.Some? {
      var i := m.value;
      ClearInv(s, boot, i);
      hide Inv;
      LiveUpdate(s, Remove(s, r).filter, i, SLOTS);
      TakeOut(Live(Remove(s, r).filter), r);
    }
  }

  lemma TakeOne(a: multiset<Region>, r: Region)
    ensures a - multiset{r} == a <==> r !in a
  {
    if r in a { assert (a - multiset{r})[r] == a[r] - 1; }
  }

  /** Adding then removing gives the region back and restores the live regions; with an address
      the register cannot hold, the remove does not find it. In range is exactly the condition. */
  lemma {:induction false} AddThenRemove(s: Filter, boot: Filter, r: Region)
    requires Inv(s, boot) && r != NOTHING && Acceptable(s.v, r) && |Live(s)| + |s.prot| < SLOTS
    requires forall i :: 0 <= i < SLOTS ==> s.slots[i].paddr < WORD
    ensures var o := Add(s, r);
            && o.code == Ok
            && (Remove(o.filter, r).code == Ok <==> InRange(r))
            && (InRange(r) ==> Live(Remove(o.filter, r).filter) == Live(s))
  {
    Room(s, boot);
    var o := Add(s, r);
    if InRange(r) {
      AddCorrect(s, boot, r);
      RemoveCorrect(o.filter, boot, r);
      TakeOut(Live(s), r);
    } else {
      hide LiveBelow;
      forall i | 0 <= i < SLOTS ensures At(o.filter, i).region != r {
        assert o.filter.slots[i].paddr < WORD;
      }
      hide MatchFrom;
    }
  }

  // --------------------------------------------------------------------------
  // All runs

  datatype Op = AddOp(r: Region) | RemoveOp(r: Region)

  function Step(s: Filter, op: Op): Filter
    requires |s.slots| == SLOTS
  {
    if op.AddOp? then Add(s, op.r).filter else Remove(s, op.r).filter
  }

  function Run(s: Filter, ops: seq<Op>): (s': Filter)
    requires |s.slots| == SLOTS
    ensures |s'.slots| == SLOTS
    decreases |ops|
  {
    if ops == [] then s else Step(Run(s, ops[..|ops| - 1]), ops[|ops| - 1])
  }

  /** What a bookkeeper would expect to be live: only a multiset and the number of slots the
      bootloader kept. */
  function Expected(v: Version, kept: nat, ops: seq<Op>): multiset<Region>
    decreases |ops|
  {
    if ops == [] then multiset{}
    else
      var m, op := Expected(v, kept, ops[..|ops| - 1]), ops[|ops| - 1];
      if op.RemoveOp? then m - multiset{op.r}
      else if |m| + kept == SLOTS || !Acceptable(v, op.r) then m
      else m + multiset{Stored(op.r)}
  }

  /** No operation asks for the empty region at zero while it is live. */
  ghost predicate Plain(v: Version, kept: nat, ops: seq<Op>) {
    forall k :: 0 <= k < |ops| && ops[k] == RemoveOp(NOTHING) ==> NOTHING !in Expected(v, kept, ops[..k])
  }

  /** Over every run: the bootloader's slots are as probed, the live regions are the expected
      ones, and the active slots are exactly those two kinds. */
  lemma {:induction false} RunCorrect(v: Version, slots: seq<Slot>, ops: seq<Op>)
    requires |slots| == SLOTS && Plain(v, |Probe(v, slots).prot|, ops)
    ensures var boot := Probe(v, slots); var s := Run(boot, ops);
            && Inv(s, boot)
            && Live(s) == Expected(v, |boot.prot|, ops)
            && (forall i :: 0 <= i < SLOTS && i in boot.prot ==> s.slots[i] == slots[i])
            && (forall i :: 0 <= i < SLOTS ==> (At(s, i).flags != 0 <==> i in boot.prot || i in s.used))
    decreases |ops|
  {
    hide LiveBelow;
    hide GetEntry;
    hide MatchFrom;
    hide FreeFrom;
    if ops == [] {
      ProbeInv(v, slots);
    } else {
      var boot, n := Probe(v, slots), |ops| - 1;
      assert forall k :: 0 <= k < n ==> ops[..n][..k] == ops[..k];
      RunCorrect(v, slots, ops[..n]);
      var s := Run(boot, ops[..n]);
      if ops[n].AddOp? { AddCorrect(s, boot, ops[n].r); } else { RemoveCorrect(s, boot, ops[n].r); }
    }
    AllowIsSet(v);
  }

  lemma AllowIsSet(v: Version)
    ensures v.FlagsAllow() != 0
  {
  }

  // --------------------------------------------------------------------------
  // Where the conditions fail

  const BLANK: seq<Slot> := seq(16, _ => Slot(0, 0, 0))

  /** An address one page past what the register holds: the add succeeds and the remove does not
      find the region again. */
  lemma OutOfRangeLost()
    ensures var s := Probe(V3, BLANK);
            var r := Region(0x1000_0000_0000, 4096);
            Add(s, r).code == Ok && Remove(Add(s, r).filter, r).code == Einval && !InRange(r)
  {
    hide Live;
    var s, r := Probe(V3, BLANK), Region(0x1000_0000_0000, 4096);
    ProbeInv(V3, BLANK);
    BlankFree();
    AddThenRemove(s, s, r);
  }

  lemma BlankFree()
    ensures Probe(V3, BLANK).prot == {}
  {
  }

  const PAGE_ONE := Region(4096, 4096)
  const STUCK_RUN := [AddOp(PAGE_ONE), AddOp(NOTHING), RemoveOp(PAGE_ONE), RemoveOp(NOTHING)]

  /** The empty region at zero, live in slot 1 while slot 0 is cleared: removing it reports success
      and leaves it live. */
  lemma EmptyRegionStuck()
    ensures Run(Probe(V3, BLANK), STUCK_RUN) == Filter(V3, BLANK[1 := Slot(255, 0, 0)], {}, {1})
    ensures GetEntry(V3, Slot(255, 0, 0)) == Entry(255, NOTHING)
    ensures Expected(V3, 0, STUCK_RUN) == multiset{}
  {
    hide Run;
    hide Expected;
    hide Step;
    hide Probe;
    hide GetEntry;
    var s, o0: seq<Op> := Probe(V3, BLANK), [];
    var o1 := o0 + [AddOp(PAGE_ONE)];
    var o2 := o1 + [AddOp(NOTHING)];
    var o3 := o2 + [RemoveOp(PAGE_ONE)];
    assert o3 + [RemoveOp(NOTHING)] == STUCK_RUN;
    StuckSteps();
    RunSnoc(s, o0, AddOp(PAGE_ONE));
    RunSnoc(s, o1, AddOp(NOTHING));
    RunSnoc(s, o2, RemoveOp(PAGE_ONE));
    RunSnoc(s, o3, RemoveOp(NOTHING));
    RunNothing(s);
    StuckShows();
    StuckBooks(o0, o1, o2, o3);
  }

  lemma StuckShows()
    ensures GetEntry(V3, Slot(255, 0, 0)) == Entry(255, NOTHING)
  {
  }

  lemma StuckBooks(o0: seq<Op>, o1: seq<Op>, o2: seq<Op>, o3: seq<Op>)
    requires o0 == [] && o1 == o0 + [AddOp(PAGE_ONE)] && o2 == o1 + [AddOp(NOTHING)] && o3 == o2 + [RemoveOp(PAGE_ONE)]
    ensures Expected(V3, 0, o3 + [RemoveOp(NOTHING)]) == multiset{}
  {
    hide Expected;
    ExpectedNothing();
    ExpectedSnoc(o0, AddOp(PAGE_ONE));
    assert Expected(V3, 0, o1) == multiset{PAGE_ONE};
    ExpectedSnoc(o1, AddOp(NOTHING));
    assert Expected(V3, 0, o2) == multiset{PAGE_ONE, NOTHING};
    ExpectedSnoc(o2, RemoveOp(PAGE_ONE));
    assert Expected(V3, 0, o3) == multiset{NOTHING};
    ExpectedSnoc(o3, RemoveOp(NOTHING));
  }

  lemma ExpectedNothing()
    ensures Expected(V3, 0, []) == multiset{}
  {
  }

  lemma ExpectedSnoc(ops: seq<Op>, op: Op)
    ensures var m := Expected(V3, 0, ops);
            Expected(V3, 0, ops + [op]) ==
            if op.RemoveOp? then m - multiset{op.r}
            else if |m| == SLOTS || !Acceptable(V3, op.r) then m
            else m + multiset{Stored(op.r)}
  {
    assert (ops + [op])[..|ops|] == ops;
  }

  lemma StuckSteps()
    ensures var s0 := Probe(V3, BLANK);
            var s1 := Step(s0, AddOp(PAGE_ONE));
            var s2 := Step(s1, AddOp(NOTHING));
            var s3 := Step(s2, RemoveOp(PAGE_ONE));
            && |s0.slots| == SLOTS
            && s3 == Filter(V3, BLANK[1 := Slot(255, 0, 0)], {}, {1}) && Step(s3, RemoveOp(NOTHING)) == s3
  {
    BlankFree();
    var s0 := Probe(V3, BLANK);
    assert FreeFrom(s0, 0) == Some(0);
    var s1 := Step(s0, AddOp(PAGE_ONE));
    assert s1 == Filter(V3, BLANK[0 := Slot(255, 1, 1)], {}, {0});
    assert FreeFrom(s1, 0) == Some(1);
    var s2 := Step(s1, AddOp(NOTHING));
    assert s2 == Filter(V3, BLANK[0 := Slot(255, 1, 1)][1 := Slot(255, 0, 0)], {}, {0, 1});
    assert MatchFrom(s2, PAGE_ONE, 0) == Some(0);
    var s3 := Step(s2, RemoveOp(PAGE_ONE));
    assert s3.slots == BLANK[1 := Slot(255, 0, 0)];
    assert MatchFrom(s3, NOTHING, 0) == Some(0);
  }

  lemma RunNothing(s: Filter)
    requires |s.slots| == SLOTS
    ensures Run(s, []) == s
  {
  }

  lemma RunSnoc(s: Filter, ops: seq<Op>, op: Op)
    requires |s.slots| == SLOTS
    ensures Run(s, ops + [op]) == Step(Run(s, ops), op)
  {
    assert (ops + [op])[..|ops|] == ops;
  }

  // --------------------------------------------------------------------------
  // The driver

  class Device {
    const v: Version
    const regs: array<Slot>
    var protectedEntries: set<nat>
    var usedEntries: set<nat>

    ghost predicate Valid()
      reads this
    {
      regs.Length == SLOTS
    }

    ghost function State(): Filter
      reads this, regs
    {
      Filter(v, regs[..], protectedEntries, usedEntries)
    }

    /** The probe scan. */
    constructor (version: Version, registers: array<Slot>)
      requires registers.Length == SLOTS
      ensures Valid() && regs == registers && State() == Probe(version, registers[..])
    {
      v, regs := version, registers;
      protectedEntries, usedEntries := {}, {};
      new;
      for i := 0 to SLOTS
        invariant protectedEntries == set k | 0 <= k < i && GetEntry(v, regs[k]).flags != 0
        invariant usedEntries == {}
      {
        var e := GetEntry(v, regs[i]);
        if e.flags == 0 { continue; }
        protectedEntries := protectedEntries + {i};
      }
    }

    /** sart_set_entry: refuses a region that is misaligned or too large, without touching a slot. */
    method SetChecked(index: nat, flags: nat, r: Region) returns (ok: bool)
      requires Valid() && index < SLOTS
      modifies regs
      ensures ok == Acceptable(v, r)
      ensures !ok ==> regs[..] == old(regs[..])
      ensures ok ==>
                var slot := SetEntry(v, old(regs[index]), flags, r.paddr / GRAIN, r.size / GRAIN);
                regs[..] == old(regs[..])[index := slot]
    {
      if r.size % GRAIN != 0 { return false; }
      if r.paddr % GRAIN != 0 { return false; }
      if r.size / GRAIN > v.SizeMax() { return false; }
      regs[index] := SetEntry(v, regs[index], flags, r.paddr / GRAIN, r.size / GRAIN);
      return true;
    }

    method AddAllowedRegion(r: Region) returns (code: Code)
      requires Valid()
      modifies this`usedEntries, regs
      ensures Outcome(State(), code) == Add(old(State()), r)
    {
      hide SetEntry;
      for i := 0 to SLOTS
        invariant State() == old(State())
        invariant FreeFrom(State(), i) == FreeFrom(old(State()), 0)
      {
        if i in protectedEntries { continue; }
        if i in usedEntries { continue; }
        usedEntries := usedEntries + {i};
        var ok := SetChecked(i, v.FlagsAllow(), r);
        if !ok {
          usedEntries := usedEntries - {i};
          return Einval;
        }
        return Ok;
      }
      return Ebusy;
    }

    method RemoveAllowedRegion(r: Region) returns (code: Code)
      requires Valid()
      modifies this`usedEntries, regs
      ensures Outcome(State(), code) == Remove(old(State()), r)
    {
      hide SetEntry;
      hide GetEntry;
      for i := 0 to SLOTS
        invariant State() == old(State())
        invariant MatchFrom(State(), r, i) == MatchFrom(old(State()), r, 0)
      {
        if i in protectedEntries { continue; }
        var e := GetEntry(v, regs[i]);
        if e.region != r { continue; }
        regs[i] := SetEntry(v, regs[i], 0, 0, 0);
        usedEntries := usedEntries - {i};
        return Ok;
      }
      return Einval;
    }
  }
}
