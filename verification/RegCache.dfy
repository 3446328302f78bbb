/** The register cache: cache, hardware and the two flags that say how far they may differ.

    `cacheDirty` false promises that hardware and cache agree; `noSyncDefaults` says the chip was
    just reset, so a sync may skip registers whose cached value is the chip's default. The runs
    below mix user writes, resets, region syncs, full syncs and syncs that fail anywhere. */
module RegCache {
  import opened Wrappers
  import opened Arith

  type Reg = nat
  type Val = nat

  datatype RegDefault = RegDefault(reg: Reg, def: Val)

  datatype Config = Config(
    maxRegister: nat,
    stride: nat,
    writeable: set<Reg>,
    volatile: set<Reg>,
    defaults: seq<RegDefault>,    // sorted by register
    patch: seq<RegDefault>,
    reset: map<Reg, Val>)         // what the chip holds after a reset
  {
    ghost predicate Valid() {
      && stride > 0
      && Sorted(defaults)
      // the driver's table tells the truth about the chip
      && (forall i :: 0 <= i < |defaults| ==> defaults[i].reg in reset && defaults[i].def == reset[defaults[i].reg])
      // patch registers are not cached
      && (forall i :: 0 <= i < |patch| ==> patch[i].reg in volatile)
    }
  }

  ghost predicate Sorted(table: seq<RegDefault>) {
    forall i, j :: 0 <= i < j < |table| ==> table[i].reg <= table[j].reg
  }

  /** `live` remembers what was written through to the chip since it was last marked as reset; it
      is what a caller knows of its own writes. */
  datatype State = State(
    cache: map<Reg, Val>,
    hw: map<Reg, Val>,
    cacheDirty: bool,
    noSyncDefaults: bool,
    cacheOnly: bool,
    live: map<Reg, Val>)

  /** Registers whose cache read or hardware write fails during one sync. A failed write may leave
      any value in the chip. */
  datatype Faults = Faults(badReads: set<Reg>, badWrites: map<Reg, Val>)

  predicate HasDefault(c: Config, reg: Reg, val: Val) {
    exists i :: 0 <= i < |c.defaults| && c.defaults[i] == RegDefault(reg, val)
  }

  predicate NeedsSync(c: Config, noSyncDefaults: bool, reg: Reg, val: Val) {
    reg in c.writeable && (!noSyncDefaults || !HasDefault(c, reg, val))
  }

  // --------------------------------------------------------------------------
  // What each operation does

  datatype Outcome = Outcome(state: State, ok: bool)

  function HwWrite(s: State, reg: Reg, val: Val, f: Faults): Outcome {
    if reg in f.badWrites then Outcome(s.(hw := s.hw[reg := f.badWrites[reg]]), false)
    else Outcome(s.(hw := s.hw[reg := val]), true)
  }

  /** The default sync from `reg` up to `max`. */
  function SyncFrom(c: Config, s: State, reg: nat, max: nat, f: Faults): Outcome
    requires c.stride > 0
    decreases max + 1 - reg
  {
    if reg > max then Outcome(s, true)
    else if reg in c.volatile || reg !in c.writeable || reg !in s.cache then SyncFrom(c, s, reg + c.stride, max, f)
    else if reg in f.badReads then Outcome(s, false)
    else if !NeedsSync(c, s.noSyncDefaults, reg, s.cache[reg]) then SyncFrom(c, s, reg + c.stride, max, f)
    else
      var o := HwWrite(s, reg, s.cache[reg], f);
      if o.ok then SyncFrom(c, o.state, reg + c.stride, max, f) else o
  }

  function ApplyPatch(c: Config, s: State, i: nat, f: Faults): Outcome
    requires i <= |c.patch|
    decreases |c.patch| - i
  {
    if i == |c.patch| then Outcome(s, true)
    else
      var o := HwWrite(s, c.patch[i].reg, c.patch[i].def, f);
      if o.ok then ApplyPatch(c, o.state, i + 1, f) else o
  }

  function Sync(c: Config, s: State, f: Faults): Outcome
    requires c.stride > 0
  {
    var o := if !s.cacheDirty then Outcome(s, true)
             else
               var p := ApplyPatch(c, s, 0, f);
               if !p.ok then p
               else
                 var q := SyncFrom(c, p.state, 0, c.maxRegister, f);
                 if q.ok then Outcome(q.state.(cacheDirty := false), true) else q;
    Outcome(o.state.(noSyncDefaults := false), o.ok)
  }

  function SyncRegion(c: Config, s: State, min: nat, max: nat, f: Faults): Outcome
    requires c.stride > 0
  {
    var o := if !s.cacheDirty then Outcome(s, true) else SyncFrom(c, s, min, max, f);
    Outcome(o.state.(noSyncDefaults := false), o.ok)
  }

  /** A reset of the chip, announced with regcache_mark_dirty. */
  function Reset(c: Config, s: State): State {
    s.(hw := c.reset, cacheDirty := true, noSyncDefaults := true, live := map[])
  }

  predicate Accessible(c: Config, reg: Reg)
    requires c.stride > 0
  {
    reg <= c.maxRegister && reg % c.stride == 0 && reg in c.writeable
  }

  /** A live write that fails: what it leaves in the chip, and whether the cache was updated. */
  datatype WriteFault = WriteFault(chip: Val, cached: bool)

  /** A user write: to the cache unless volatile, and to the chip unless in cache-only mode. */
  function Write(c: Config, s: State, reg: Reg, val: Val, fault: Option<WriteFault>): State
    requires c.stride > 0
  {
    if !Accessible(c, reg) then s
    else
      var cached := reg !in c.volatile && (s.cacheOnly || fault.None? || fault.value.cached);
      var s' := if cached then s.(cache := s.cache[reg := val]) else s;
      if s.cacheOnly then s'.(cacheDirty := true)
      else
        var chip := if fault.Some? then fault.value.chip else val;
        s'.(hw := s'.hw[reg := chip], live := s'.live[reg := chip])
  }

  function Drop(s: State, min: nat, max: nat): State {
    s.(cache := map r | r in s.cache && !(min <= r <= max) :: s.cache[r])
  }

  datatype Op =
    | WriteOp(reg: Reg, val: Val, fault: Option<WriteFault>)
    | CacheOnlyOp(enable: bool)
    | ResetOp
    | SyncOp(f: Faults)
    | SyncRegionOp(min: nat, max: nat, f: Faults)
    | DropOp(min: nat, max: nat)

  function Apply(c: Config, s: State, op: Op): State
    requires c.stride > 0
  {
    match op
    case WriteOp(reg, val, fault) => Write(c, s, reg, val, fault)
    case CacheOnlyOp(enable) => s.(cacheOnly := enable)
    case ResetOp => Reset(c, s)
    case SyncOp(f) => Sync(c, s, f).state
    case SyncRegionOp(min, max, f) => SyncRegion(c, s, min, max, f).state
    case DropOp(min, max) => Drop(s, min, max)
  }

  function Run(c: Config, s: State, ops: seq<Op>): State
    requires c.stride > 0
    decreases |ops|
  {
    if ops == [] then s else Apply(c, Run(c, s, ops[..|ops| - 1]), ops[|ops| - 1])
  }

  /** A chip out of reset and an empty cache. */
  function Initial(c: Config): State {
    State(map[], c.reset, false, false, false, map[])
  }

  // --------------------------------------------------------------------------
  // The invariant

  ghost predicate Agrees(s: State, r: Reg) {
    r in s.cache ==> r in s.hw && s.hw[r] == s.cache[r]
  }

  /** Cached registers are ones the full sync visits. */
  ghost predicate CacheInRange(c: Config, s: State)
    requires c.stride > 0
  {
    forall r :: r in s.cache ==> r <= c.maxRegister && r % c.stride == 0 && r !in c.volatile
  }

  /** While defaults may be skipped, the chip holds the live writes over its reset values. */
  ghost predicate ResetKnown(c: Config, s: State) {
    s.noSyncDefaults ==>
      && s.cacheDirty
      && (forall r :: r in c.reset || r in s.live ==>
            r in s.hw && s.hw[r] == if r in s.live then s.live[r] else c.reset[r])
  }

  /** Cached at the chip's default, though something else was written to the chip since the reset. */
  predicate Stranded(c: Config, s: State, r: Reg) {
    && s.noSyncDefaults && r in s.cache
    && HasDefault(c, r, s.cache[r])
    && r in s.live && s.live[r] != s.cache[r]
  }

  /** A failing live write to a clean cache that leaves another value in the chip than in the cache. */
  predicate Torn(c: Config, s: State, op: Op)
    requires c.stride > 0
  {
    && op.WriteOp? && op.fault.Some? && Accessible(c, op.reg) && op.reg !in c.volatile
    && !s.cacheOnly && !s.cacheDirty
    && (if op.fault.value.cached then op.val != op.fault.value.chip
        else op.reg in s.cache && s.cache[op.reg] != op.fault.value.chip)
  }

  ghost predicate Coherent(c: Config, s: State) {
    !s.cacheDirty ==> forall r :: r in c.writeable ==> Agrees(s, r)
  }

  ghost predicate Inv(c: Config, s: State)
    requires c.stride > 0
  {
    CacheInRange(c, s) && ResetKnown(c, s)
  }

  // --------------------------------------------------------------------------
  // One sync

  /** What the chip holds for r once the sync has passed it, if nothing fails. */
  function Synced(c: Config, s: State, r: Reg): Option<Val> {
    if r in s.cache && r !in c.volatile && NeedsSync(c, s.noSyncDefaults, r, s.cache[r]) then Some(s.cache[r])
    else if r in s.hw then Some(s.hw[r])
    else None
  }

  /** A sync touches the chip only at cached registers it visits; all other state is unchanged. */
  lemma {:induction false} SyncFromFrame(c: Config, s: State, reg: nat, max: nat, f: Faults)
    requires c.stride > 0
    ensures SyncFrom(c, s, reg, max, f).state == s.(hw := SyncFrom(c, s, reg, max, f).state.hw)
    decreases max + 1 - reg
  {
    if reg <= max {
      SyncFromFrame(c, s, reg + c.stride, max, f);
      if reg in s.cache { SyncFromFrame(c, HwWrite(s, reg, s.cache[reg], f).state, reg + c.stride, max, f); }
    }
  }

  lemma {:induction false} SyncFromChip(c: Config, s: State, reg: nat, max: nat, f: Faults, r: Reg)
    requires c.stride > 0 && SyncFrom(c, s, reg, max, f).ok
    ensures var hw := SyncFrom(c, s, reg, max, f).state.hw;
            var want := if reg <= r <= max && r % c.stride == reg % c.stride then Synced(c, s, r)
                        else if r in s.hw then Some(s.hw[r]) else None;
            want == if r in hw then Some(hw[r]) else None
    decreases max + 1 - reg
  {
    NeedsWriteable(c, s.noSyncDefaults, reg);
    hide NeedsSync;
    if reg <= max {
      NextMultiple(reg, r, c.stride);
      var next := reg + c.stride;
      if reg in s.cache && reg !in c.volatile && NeedsSync(c, s.noSyncDefaults, reg, s.cache[reg])
          && reg !in f.badReads {
        SyncFromChip(c, HwWrite(s, reg, s.cache[reg], f).state, next, max, f, r);
      } else if reg !in f.badReads || reg in c.volatile || reg !in c.writeable || reg !in s.cache {
        SyncFromChip(c, s, next, max, f, r);
      }
    }
  }

  // --------------------------------------------------------------------------
  // When a sync succeeds, and how far it gets if it does not

  function ChipAt(s: State, r: Reg): Option<Val> {
    if r in s.hw then Some(s.hw[r]) else None
  }

  /** The registers a sync from min to max comes by. */
  predicate InSweep(c: Config, min: nat, max: nat, r: Reg)
    requires c.stride > 0
  {
    min <= r <= max && r % c.stride == min % c.stride
  }

  /** A register at which a sync has to give up. */
  predicate Fails(c: Config, s: State, f: Faults, r: Reg) {
    && r in s.cache && r !in c.volatile && r in c.writeable
    && (r in f.badReads || (NeedsSync(c, s.noSyncDefaults, r, s.cache[r]) && r in f.badWrites))
  }

  lemma SweepStep(c: Config, min: nat, max: nat, r: Reg)
    requires c.stride > 0 && min <= max
    ensures InSweep(c, min, max, r) <==> r == min || InSweep(c, min + c.stride, max, r)
    ensures InSweep(c, min + c.stride, max, r) ==> r > min
  {
    NextMultiple(min, r, c.stride);
  }

  /** What the chip shows after a sync that gives up at register x. */
  ghost predicate StoppedAt(c: Config, s: State, s': State, reg: nat, max: nat, f: Faults, x: Reg)
    requires c.stride > 0
  {
    && InSweep(c, reg, max, x) && Fails(c, s, f, x)
    && forall r: Reg :: ChipAt(s', r) ==
                   if InSweep(c, reg, max, r) && r < x then Synced(c, s, r)
                   else if r == x && x !in f.badReads then Some(f.badWrites[x])
                   else ChipAt(s, r)
  }

  /** The state after register reg, if it does not fail. */
  function Past(c: Config, s: State, reg: Reg, f: Faults): State {
    if reg in s.cache && reg !in c.volatile && NeedsSync(c, s.noSyncDefaults, reg, s.cache[reg])
    then HwWrite(s, reg, s.cache[reg], f).state else s
  }

  lemma PastOne(c: Config, s: State, reg: Reg, max: nat, f: Faults)
    requires c.stride > 0 && reg <= max && !Fails(c, s, f, reg)
    ensures var t := Past(c, s, reg, f);
            && SyncFrom(c, s, reg, max, f) == SyncFrom(c, t, reg + c.stride, max, f)
            && ChipAt(t, reg) == Synced(c, s, reg)
            && forall r: Reg ::
                 && (Fails(c, t, f, r) <==> Fails(c, s, f, r))
                 && (r != reg ==> ChipAt(t, r) == ChipAt(s, r) && Synced(c, t, r) == Synced(c, s, r))
  {
    NeedsWriteable(c, s.noSyncDefaults, reg);
    hide NeedsSync;
  }

  /** A sync fails exactly if it comes by a register that fails, and gives up at the first one: the
      ones before are synced, the ones after untouched. */
  lemma {:induction false} SyncFromOutcome(c: Config, s: State, reg: nat, max: nat, f: Faults) returns (x: Reg)
    requires c.stride > 0
    ensures SyncFrom(c, s, reg, max, f).ok <==> forall r: Reg :: InSweep(c, reg, max, r) ==> !Fails(c, s, f, r)
    ensures !SyncFrom(c, s, reg, max, f).ok ==>
              && StoppedAt(c, s, SyncFrom(c, s, reg, max, f).state, reg, max, f, x)
              && forall r: Reg :: InSweep(c, reg, max, r) && r < x ==> !Fails(c, s, f, r)
    decreases max + 1 - reg
  {
    x := reg;
    if reg <= max {
      forall r: Reg
        ensures InSweep(c, reg, max, r) <==> r == reg || InSweep(c, reg + c.stride, max, r)
        ensures InSweep(c, reg + c.stride, max, r) ==> r > reg
      {
        SweepStep(c, reg, max, r);
      }
      if Fails(c, s, f, reg) {
        GivesUp(c, s, reg, max, f);
      } else {
        hide SyncFrom;
        hide Fails;
        hide InSweep;
        hide Past;
        hide ChipAt;
        hide Synced;
        PastOne(c, s, reg, max, f);
        x := SyncFromOutcome(c, Past(c, s, reg, f), reg + c.stride, max, f);
      }
    }
  }

  lemma GivesUp(c: Config, s: State, reg: nat, max: nat, f: Faults)
    requires c.stride > 0 && reg <= max && Fails(c, s, f, reg)
    ensures var o := SyncFrom(c, s, reg, max, f); !o.ok && StoppedAt(c, s, o.state, reg, max, f, reg)
  {
  }

  /** A region sync, exactly: a clean cache leaves the chip alone; otherwise it succeeds exactly if no
      register of the region fails, and the chip then holds what is owed all over the region and what
      it held before elsewhere. */
  lemma {:induction false} SyncRegionExact(c: Config, s: State, min: nat, max: nat, f: Faults, r: Reg)
    requires c.stride > 0
    ensures var o := SyncRegion(c, s, min, max, f);
            && o.state == s.(hw := o.state.hw, noSyncDefaults := false)
            && (o.ok <==> s.cacheDirty ==> forall q: Reg :: InSweep(c, min, max, q) ==> !Fails(c, s, f, q))
            && (o.ok ==> ChipAt(o.state, r) ==
                         if s.cacheDirty && InSweep(c, min, max, r) then Synced(c, s, r) else ChipAt(s, r))
  {
    hide SyncFrom;
    hide Synced;
    if s.cacheDirty {
      var _ := SyncFromOutcome(c, s, min, max, f);
      SyncFromFrame(c, s, min, max, f);
      if SyncFrom(c, s, min, max, f).ok { SyncFromChip(c, s, min, max, f, r); }
    }
  }

  /** Patch values reach the chip: it takes all of them exactly if none of their registers is bad, and
      then holds the last one given for each. */
  lemma {:induction false} PatchReaches(c: Config, s: State, i: nat, f: Faults)
    requires i <= |c.patch|
    ensures ApplyPatch(c, s, i, f).ok <==> forall k :: i <= k < |c.patch| ==> c.patch[k].reg !in f.badWrites
    ensures ApplyPatch(c, s, i, f).ok ==>
              forall k :: i <= k < |c.patch| && (forall j :: k < j < |c.patch| ==> c.patch[j].reg != c.patch[k].reg) ==>
                ChipAt(ApplyPatch(c, s, i, f).state, c.patch[k].reg) == Some(c.patch[k].def)
    ensures ApplyPatch(c, s, i, f).ok ==>
              forall r: Reg :: (forall k :: i <= k < |c.patch| ==> c.patch[k].reg != r) ==>
                ChipAt(ApplyPatch(c, s, i, f).state, r) == ChipAt(s, r)
    decreases |c.patch| - i
  {
    if i < |c.patch| {
      PatchReaches(c, HwWrite(s, c.patch[i].reg, c.patch[i].def, f).state, i + 1, f);
    }
  }

  /** A full sync succeeds exactly if the cache is clean, or no patch register and no register of the
      whole map fails. */
  lemma SyncSucceeds(c: Config, s: State, f: Faults)
    requires c.Valid()
    ensures Sync(c, s, f).ok <==>
              (s.cacheDirty ==>
                 && (forall k :: 0 <= k < |c.patch| ==> c.patch[k].reg !in f.badWrites)
                 && (forall r: Reg :: InSweep(c, 0, c.maxRegister, r) ==> !Fails(c, s, f, r)))
  {
    hide SyncFrom;
    hide ApplyPatch;
    PatchReaches(c, s, 0, f);
    PatchFrame(c, s, 0, f);
    var p := ApplyPatch(c, s, 0, f).state;
    var _ := SyncFromOutcome(c, p, 0, c.maxRegister, f);
    assert forall r: Reg :: Fails(c, p, f, r) <==> Fails(c, s, f, r);
  }

  /** What a user write does to the chip, register by register: one that is out of the map, off the
      stride or not writeable is refused, and a cache-only write does not reach it. */
  lemma WriteChip(c: Config, s: State, reg: Reg, val: Val, fault: Option<WriteFault>, r: Reg)
    requires c.stride > 0
    ensures var taken := reg <= c.maxRegister && reg % c.stride == 0 && reg in c.writeable;
            ChipAt(Write(c, s, reg, val, fault), r) ==
            if taken && !s.cacheOnly && r == reg then Some(if fault.Some? then fault.value.chip else val)
            else ChipAt(s, r)
  {
  }

  /** And to the cache: a volatile register never gets there, any other does unless a live write failed
      first. */
  lemma WriteCache(c: Config, s: State, reg: Reg, val: Val, fault: Option<WriteFault>, r: Reg)
    requires c.stride > 0
    ensures var taken := reg <= c.maxRegister && reg % c.stride == 0 && reg in c.writeable && reg !in c.volatile;
            var reached := s.cacheOnly || fault.None? || fault.value.cached;
            CachedAt(Write(c, s, reg, val, fault), r) ==
            if taken && reached && r == reg then Some(val) else CachedAt(s, r)
  {
  }

  /** And to the flags: only a cache-only write makes the cache dirty. */
  lemma WriteFlags(c: Config, s: State, reg: Reg, val: Val, fault: Option<WriteFault>)
    requires c.stride > 0
    ensures var s' := Write(c, s, reg, val, fault);
            var taken := reg <= c.maxRegister && reg % c.stride == 0 && reg in c.writeable;
            && s'.cacheDirty == (s.cacheDirty || (taken && s.cacheOnly))
            && s'.noSyncDefaults == s.noSyncDefaults && s'.cacheOnly == s.cacheOnly
  {
  }

  function CachedAt(s: State, r: Reg): Option<Val> {
    if r in s.cache then Some(s.cache[r]) else None
  }

  /** Dropping a region forgets exactly its registers, and touches neither chip nor flags. */
  lemma DropMeans(s: State, min: nat, max: nat, r: Reg)
    ensures var s' := Drop(s, min, max);
            && CachedAt(s', r) == (if min <= r <= max then None else CachedAt(s, r))
            && s' == s.(cache := s'.cache)
  {
  }

  lemma NeedsWriteable(c: Config, noSyncDefaults: bool, reg: Reg)
    ensures reg !in c.writeable ==> forall v :: !NeedsSync(c, noSyncDefaults, reg, v)
  {
  }

  lemma NextMultiple(reg: nat, r: nat, stride: nat)
    requires stride > 0
    ensures (reg + stride) % stride == reg % stride
    ensures reg < r && r % stride == reg % stride ==> reg + stride <= r
  {
    ModAdd(reg, stride);
    if reg < r < reg + stride && r % stride == reg % stride {
      ModStep(reg, r - reg, stride);
    }
  }

  /** Patch writes reach no cached register. */
  lemma {:induction false} PatchFrame(c: Config, s: State, i: nat, f: Faults)
    requires c.Valid() && i <= |c.patch|
    ensures var s' := ApplyPatch(c, s, i, f).state;
            && s' == s.(hw := s'.hw)
            && forall r :: r !in c.volatile ==> (r in s'.hw <==> r in s.hw) && (r in s.hw ==> s'.hw[r] == s.hw[r])
    decreases |c.patch| - i
  {
    if i < |c.patch| {
      PatchFrame(c, HwWrite(s, c.patch[i].reg, c.patch[i].def, f).state, i + 1, f);
    }
  }

  /** A successful full sync makes exactly the registers agree that are not stranded. */
  lemma {:induction false} SyncExact(c: Config, s: State, f: Faults, r: Reg)
    requires c.Valid() && Inv(c, s) && s.cacheDirty && Sync(c, s, f).ok
    ensures var s' := Sync(c, s, f).state;
            && !s'.cacheDirty && s'.cache == s.cache
            && (r in c.writeable ==> (Agrees(s', r) <==> !Stranded(c, s, r)))
  {
    PatchFrame(c, s, 0, f);
    var p := ApplyPatch(c, s, 0, f).state;
    SyncFromFrame(c, p, 0, c.maxRegister, f);
    if r in s.cache && r in c.writeable {
      SyncFromChip(c, p, 0, c.maxRegister, f, r);
      DefaultIsReset(c, r, s.cache[r]);
    }
  }

  lemma DefaultIsReset(c: Config, r: Reg, v: Val)
    requires c.Valid()
    ensures HasDefault(c, r, v) ==> r in c.reset && c.reset[r] == v
  {
  }

  // --------------------------------------------------------------------------
  // All runs

  lemma SyncInv(c: Config, s: State, f: Faults)
    requires c.Valid() && Inv(c, s)
    ensures Inv(c, Sync(c, s, f).state)
    ensures Sync(c, s, f).state.cacheDirty <==> s.cacheDirty && !Sync(c, s, f).ok
    ensures !s.cacheDirty ==> Sync(c, s, f).state == s
  {
    PatchFrame(c, s, 0, f);
    SyncFromFrame(c, ApplyPatch(c, s, 0, f).state, 0, c.maxRegister, f);
  }

  lemma ApplyInv(c: Config, s: State, op: Op)
    requires c.Valid() && Inv(c, s)
    ensures Inv(c, Apply(c, s, op))
  {
    match op
    case SyncOp(f) => SyncInv(c, s, f);
    case SyncRegionOp(min, max, f) => SyncFromFrame(c, s, min, max, f);
    case _ =>
  }

  /** A write keeps a clean cache equal to the chip exactly if it is not torn. */
  lemma WriteExact(c: Config, s: State, op: Op)
    requires c.Valid() && Inv(c, s) && Coherent(c, s) && op.WriteOp?
    ensures Coherent(c, Apply(c, s, op)) <==> !Torn(c, s, op)
  {
    var s' := Apply(c, s, op);
    if Torn(c, s, op) {
      assert op.reg in c.writeable && !Agrees(s', op.reg);
    }
  }

  /** A step that sets a clean cache and the chip apart: a torn write, or a successful sync of a
      dirty cache over a stranded register. */
  ghost predicate Harmful(c: Config, s: State, op: Op)
    requires c.stride > 0
  {
    || Torn(c, s, op)
    || (op.SyncOp? && s.cacheDirty && Sync(c, s, op.f).ok && exists r :: r in c.writeable && Stranded(c, s, r))
  }

  /** Every step keeps a clean cache equal to the chip exactly if it is not harmful. */
  lemma ApplyCoherent(c: Config, s: State, op: Op)
    requires c.Valid() && Inv(c, s) && Coherent(c, s)
    ensures Coherent(c, Apply(c, s, op)) <==> !Harmful(c, s, op)
  {
    match op
    case SyncOp(f) =>
      SyncInv(c, s, f);
      if s.cacheDirty && Sync(c, s, f).ok {
        forall r | r in c.writeable
          ensures Agrees(Sync(c, s, f).state, r) <==> !Stranded(c, s, r)
        {
          SyncExact(c, s, f, r);
        }
      }
    case SyncRegionOp(min, max, f) => SyncFromFrame(c, s, min, max, f);
    case WriteOp(_, _, _) => WriteExact(c, s, op);
    case _ =>
  }

  lemma {:induction false} RunInv(c: Config, ops: seq<Op>)
    requires c.Valid()
    ensures Inv(c, Run(c, Initial(c), ops))
    decreases |ops|
  {
    if ops != [] {
      RunInv(c, ops[..|ops| - 1]);
      ApplyInv(c, Run(c, Initial(c), ops[..|ops| - 1]), ops[|ops| - 1]);
    }
  }

  /** No step of the run is harmful. */
  ghost predicate Careful(c: Config, ops: seq<Op>)
    requires c.stride > 0
  {
    forall k :: 0 <= k < |ops| ==> !Harmful(c, Run(c, Initial(c), ops[..k]), ops[k])
  }

  /** Whenever in the run the cache is clean, it equals the chip on every cached, writeable register. */
  ghost predicate AlwaysCoherent(c: Config, ops: seq<Op>)
    requires c.stride > 0
  {
    forall k :: 0 <= k <= |ops| ==> Coherent(c, Run(c, Initial(c), ops[..k]))
  }

  /** A run keeps the promise throughout if and only if no step of it is harmful. */
  lemma {:induction false} CleanMeansEqual(c: Config, ops: seq<Op>)
    requires c.Valid()
    ensures AlwaysCoherent(c, ops) <==> Careful(c, ops)
    decreases |ops|
  {
    hide Harmful;
    hide Coherent;
    if ops == [] {
      InitialCoherent(c);
    } else {
      var n := |ops| - 1;
      var init := ops[..n];
      assert forall k :: 0 <= k <= n ==> init[..k] == ops[..k];
      assert ops[..n + 1] == ops && init[..n] == init;
      CleanMeansEqual(c, init);
      RunInv(c, init);
      var s := Run(c, Initial(c), init);
      if Coherent(c, s) { ApplyCoherent(c, s, ops[n]); }
      assert Careful(c, ops) <==> Careful(c, init) && !Harmful(c, s, ops[n]);
      assert AlwaysCoherent(c, ops) <==> AlwaysCoherent(c, init) && Coherent(c, Run(c, Initial(c), ops));
      assert AlwaysCoherent(c, init) ==> Coherent(c, s);
      assert Run(c, Initial(c), ops) == Apply(c, s, ops[n]);
    }
  }

  lemma InitialCoherent(c: Config)
    requires c.stride > 0
    ensures Coherent(c, Run(c, Initial(c), []))
  {
  }

  /** And care is needed: after any run at all, a successful sync of a dirty cache gives a
      coherent state if and only if nothing was stranded. */
  lemma {:induction false} CoherentIffNotStranded(c: Config, ops: seq<Op>, f: Faults)
    requires c.Valid()
    requires var s := Run(c, Initial(c), ops); s.cacheDirty && Sync(c, s, f).ok
    ensures var s := Run(c, Initial(c), ops);
            Coherent(c, Sync(c, s, f).state) <==> forall r :: r in c.writeable ==> !Stranded(c, s, r)
  {
    RunInv(c, ops);
    var s := Run(c, Initial(c), ops);
    SyncInv(c, s, f);
    forall r ensures r in c.writeable ==> (Agrees(Sync(c, s, f).state, r) <==> !Stranded(c, s, r)) {
      SyncExact(c, s, f, r);
    }
  }

  /** Skipping defaults is sound for every register not written live since the reset: the chip
      then holds the default itself. */
  lemma {:induction false} SkipIsSound(c: Config, ops: seq<Op>, r: Reg)
    requires c.Valid()
    requires var s := Run(c, Initial(c), ops); s.noSyncDefaults && r in s.cache && HasDefault(c, r, s.cache[r])
    ensures var s := Run(c, Initial(c), ops);
            r in s.hw && (s.hw[r] == s.cache[r] <==> !Stranded(c, s, r))
  {
    RunInv(c, ops);
    var s := Run(c, Initial(c), ops);
    DefaultIsReset(c, r, s.cache[r]);
  }

  const STRANDED_CONFIG := Config(0, 1, {0}, {}, [RegDefault(0, 0)], [], map[0 := 0])
  const STRANDED_RUN := [ResetOp, WriteOp(0, 5, None), CacheOnlyOp(true), WriteOp(0, 0, None), CacheOnlyOp(false)]

  /** A run that strands a register: reset, a live write of 5, then a cache-only write of the
      default 0. The sync that follows skips the register: the clean cache says 0, the chip
      holds 5. */
  lemma StrandedRun()
    ensures STRANDED_CONFIG.Valid()
    ensures var s := Run(STRANDED_CONFIG, Initial(STRANDED_CONFIG), STRANDED_RUN + [SyncOp(Faults({}, map[]))]);
            !s.cacheDirty && s.cache == map[0 := 0] && s.hw == map[0 := 5]
  {
    var c, s0, none := STRANDED_CONFIG, Initial(STRANDED_CONFIG), Faults({}, map[]);
    assert Run(c, s0, []) == s0;
    hide Run;
    var o1 := [] + [ResetOp];
    var o2 := o1 + [WriteOp(0, 5, None)];
    var o3 := o2 + [CacheOnlyOp(true)];
    var o4 := o3 + [WriteOp(0, 0, None)];
    var o5 := o4 + [CacheOnlyOp(false)];
    RunSnoc(c, s0, [], ResetOp);
    RunSnoc(c, s0, o1, WriteOp(0, 5, None));
    RunSnoc(c, s0, o2, CacheOnlyOp(true));
    RunSnoc(c, s0, o3, WriteOp(0, 0, None));
    RunSnoc(c, s0, o4, CacheOnlyOp(false));
    RunSnoc(c, s0, STRANDED_RUN, SyncOp(none));
    assert o5 == STRANDED_RUN;
    var s5 := State(map[0 := 0], map[0 := 5], true, true, false, map[0 := 5]);
    assert Run(c, s0, o5) == s5;
    StrandedSync(c, s5, none);
  }

  lemma StrandedSync(c: Config, s: State, none: Faults)
    requires c == STRANDED_CONFIG && none == Faults({}, map[])
    requires s == State(map[0 := 0], map[0 := 5], true, true, false, map[0 := 5])
    ensures Sync(c, s, none) == Outcome(s.(cacheDirty := false, noSyncDefaults := false), true)
  {
    assert c.defaults[0] == RegDefault(0, 0);
    assert SyncFrom(c, s, 0, 0, none) == Outcome(s, true);
  }

  lemma {:induction false} RunSnoc(c: Config, s: State, ops: seq<Op>, op: Op)
    requires c.stride > 0
    ensures Run(c, s, ops + [op]) == Apply(c, Run(c, s, ops), op)
  {
    assert (ops + [op])[..|ops|] == ops;
  }
}
