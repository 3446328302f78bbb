/** The register map object: the operations of regcache.c on its fields, each proved to do what
    module RegCache says. */
module RegMap {
  import opened Wrappers
  import opened RegCache

  // --------------------------------------------------------------------------
  // The defaults table

  function Insert(x: RegDefault, table: seq<RegDefault>): seq<RegDefault> {
    if table == [] || x.reg <= table[0].reg then [x] + table else [table[0]] + Insert(x, table[1..])
  }

  function SortByReg(table: seq<RegDefault>): seq<RegDefault> {
    if table == [] then [] else Insert(table[0], SortByReg(table[1..]))
  }

  lemma {:induction false} InsertKeeps(x: RegDefault, table: seq<RegDefault>)
    ensures multiset(Insert(x, table)) == multiset(table) + multiset{x}
  {
    if table != [] {
      assert table == [table[0]] + table[1..];
      if x.reg > table[0].reg { InsertKeeps(x, table[1..]); }
    }
  }

  lemma {:induction false} InsertSorted(x: RegDefault, table: seq<RegDefault>)
    requires Sorted(table)
    ensures Sorted(Insert(x, table))
  {
    if table != [] && x.reg > table[0].reg {
      var rest := table[1..];
      var r := Insert(x, rest);
      InsertSorted(x, rest);
      InsertKeeps(x, rest);
      forall k | 0 <= k < |r| ensures table[0].reg <= r[k].reg {
        assert r[k] in multiset(r);
        assert r[k] == x || r[k] in rest;
      }
    }
  }

  lemma {:induction false} SortSorts(table: seq<RegDefault>)
    ensures Sorted(SortByReg(table)) && multiset(SortByReg(table)) == multiset(table)
  {
    if table != [] {
      assert table == [table[0]] + table[1..];
      SortSorts(table[1..]);
      InsertSorted(table[0], SortByReg(table[1..]));
      InsertKeeps(table[0], SortByReg(table[1..]));
    }
  }

  /** The table part of regcache_init: refuses misaligned registers, and copies the table, sorted
      if it was not. Binary search may then rely on the order, and no entry is lost. */
  method InitDefaults(config: seq<RegDefault>, stride: nat) returns (table: Option<seq<RegDefault>>)
    requires stride > 0
    ensures table.None? <==> exists i :: 0 <= i < |config| && config[i].reg % stride != 0
    ensures table.Some? ==> Sorted(table.value) && multiset(table.value) == multiset(config)
  {
    var sortDefaults, regPrev := false, 0;
    for i := 0 to |config|
      invariant forall j :: 0 <= j < i ==> config[j].reg % stride == 0
      invariant if i == 0 then regPrev == 0 else regPrev == config[i - 1].reg
      invariant !sortDefaults ==> forall j, k :: 0 <= j < k < i ==> config[j].reg <= config[k].reg
    {
      if config[i].reg % stride != 0 { return None; }
      if regPrev > config[i].reg { sortDefaults := true; }
      regPrev := config[i].reg;
    }
    SortSorts(config);
    return Some(if sortDefaults then SortByReg(config) else config);
  }

  /** Binary search by register. */
  method LookupReg(table: seq<RegDefault>, reg: Reg) returns (i: Option<nat>)
    requires Sorted(table)
    ensures i.Some? ==> i.value < |table| && table[i.value].reg == reg
    ensures i.None? ==> forall j :: 0 <= j < |table| ==> table[j].reg != reg
  {
    var base, num := 0, |table|;
    while num > 0
      invariant 0 <= base && 0 <= num && base + num <= |table|
      invariant forall j :: 0 <= j < base ==> table[j].reg < reg
      invariant forall j :: base + num <= j < |table| ==> table[j].reg > reg
    {
      var pivot := base + num / 2;
      if table[pivot].reg == reg { return Some(pivot); }
      if table[pivot].reg < reg {
        base, num := pivot + 1, num - num / 2 - 1;
      } else {
        num := num / 2;
      }
    }
    return None;
  }

  class Map {
    const c: Config
    var cache: map<Reg, Val>
    var hw: map<Reg, Val>
    var cacheDirty: bool
    var noSyncDefaults: bool
    var cacheOnly: bool
    var cacheBypass: bool
    ghost var live: map<Reg, Val>

    ghost function St(): State
      reads this
    {
      State(cache, hw, cacheDirty, noSyncDefaults, cacheOnly, live)
    }

    constructor (config: Config)
      requires config.Valid()
      ensures c == config && St() == Initial(c) && !cacheBypass
    {
      c := config;
      cache, hw, cacheDirty, noSyncDefaults, cacheOnly, cacheBypass := map[], config.reset, false, false, false, false;
      live := map[];
    }

    /** A write with the cache bypassed goes to the chip alone. */
    method BypassWrite(reg: Reg, val: Val, f: Faults) returns (ok: bool)
      requires cacheBypass
      modifies this`hw
      ensures Outcome(St(), ok) == HwWrite(old(St()), reg, val, f)
    {
      if reg in f.badWrites {
        hw := hw[reg := f.badWrites[reg]];
        return false;
      }
      hw := hw[reg := val];
      return true;
    }

    method RegNeedsSync(reg: Reg, val: Val) returns (b: bool)
      requires c.Valid()
      ensures b == NeedsSync(c, noSyncDefaults, reg, val)
    {
      if reg !in c.writeable { return false; }
      if !noSyncDefaults { return true; }
      var i := LookupReg(c.defaults, reg);
      if i.Some? && val == c.defaults[i.value].def {
        assert c.defaults[i.value] == RegDefault(reg, val);
        return false;
      }
      return true;
    }

    /** The loop over a register range. */
    method DefaultSync(min: nat, max: nat, f: Faults) returns (ok: bool)
      requires c.Valid()
      modifies this`hw, this`cacheBypass
      ensures Outcome(St(), ok) == SyncFrom(c, old(St()), min, max, f)
      ensures !cacheBypass || cacheBypass == old(cacheBypass)
    {
      var reg := min;
      while reg <= max
        invariant SyncFrom(c, St(), reg, max, f) == SyncFrom(c, old(St()), min, max, f)
        invariant !cacheBypass || cacheBypass == old(cacheBypass)
        decreases max + c.stride - reg
      {
        if reg in c.volatile || reg !in c.writeable || reg !in cache {
          reg := reg + c.stride;
          continue;
        }
        if reg in f.badReads { return false; }
        var val := cache[reg];
        var needed := RegNeedsSync(reg, val);
        if !needed {
          reg := reg + c.stride;
          continue;
        }
        cacheBypass := true;
        var done := BypassWrite(reg, val, f);
        cacheBypass := false;
        if !done { return false; }
        reg := reg + c.stride;
      }
      return true;
    }

    /** The patch, then every register; dirty is cleared only if all of it succeeded. The bypass
        state comes back and defaults are no longer skipped, whatever happened. */
    method SyncAll(f: Faults) returns (ok: bool)
      requires c.Valid()
      modifies this`hw, this`cacheDirty, this`noSyncDefaults, this`cacheBypass
      ensures Outcome(St(), ok) == Sync(c, old(St()), f)
      ensures cacheBypass == old(cacheBypass)
    {
      ok := true;
      var bypass := cacheBypass;
      if cacheDirty {
        cacheBypass := true;
        var i := 0;
        while i < |c.patch| && ok
          invariant 0 <= i <= |c.patch|
          invariant cacheBypass && St() == old(St()).(hw := hw)
          invariant ok ==> ApplyPatch(c, St(), i, f) == ApplyPatch(c, old(St()), 0, f)
          invariant !ok ==> Outcome(St(), false) == ApplyPatch(c, old(St()), 0, f)
        {
          ok := BypassWrite(c.patch[i].reg, c.patch[i].def, f);
          i := i + 1;
        }
        if ok {
          cacheBypass := false;
          ok := DefaultSync(0, c.maxRegister, f);
          if ok { cacheDirty := false; }
        }
      }
      cacheBypass := bypass;
      noSyncDefaults := false;
    }

    method SyncRange(min: nat, max: nat, f: Faults) returns (ok: bool)
      requires c.Valid()
      modifies this`hw, this`noSyncDefaults, this`cacheBypass
      ensures Outcome(St(), ok) == SyncRegion(c, old(St()), min, max, f)
      ensures cacheBypass == old(cacheBypass)
    {
      ok := true;
      var bypass := cacheBypass;
      if cacheDirty {
        ok := DefaultSync(min, max, f);
      }
      cacheBypass := bypass;
      noSyncDefaults := false;
    }

    /** Called when the chip has been reset. */
    method MarkDirty()
      modifies this`hw, this`cacheDirty, this`noSyncDefaults, this`live
      ensures St() == Reset(c, old(St()))
    {
      hw := c.reset;
      live := map[];
      cacheDirty := true;
      noSyncDefaults := true;
    }
  }
}
