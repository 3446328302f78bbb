/** CPU capabilities: how the system-wide set grows and shrinks while CPUs come up early, and which
    CPUs may still join once it is final. */
module CpuCaps {
  import opened Wrappers

  datatype Scope = BootCpu | LocalCpu | SystemWide

  datatype Cap = Cap(scope: Scope, matchAll: bool, lateOptional: bool, latePermitted: bool)

  /** The capability table, by capability number. */
  type Table = seq<Option<Cap>>

  /** A CPU, by the capabilities that match on it. */
  type Cpu = set<nat>

  const BOOT_SCOPES := {BootCpu, LocalCpu}
  const LATE_SCOPES := {LocalCpu, SystemWide}

  /** One round of update_cpu_capabilities for capability n. */
  function UpdateCap(table: Table, n: nat, scopes: set<Scope>, cpu: Cpu, caps: set<nat>): set<nat>
    requires n < |table|
  {
    if table[n].None? || table[n].value.scope !in scopes then caps
    else
      var cap, isSet := table[n].value, n in caps;
      if !cap.matchAll && isSet then caps
      else if cap.matchAll && !isSet && BootCpu !in scopes then caps
      else if n !in cpu then (if cap.matchAll then caps - {n} else caps)
      else caps + {n}
  }

  function UpdateUpTo(table: Table, n: nat, scopes: set<Scope>, cpu: Cpu, caps: set<nat>): set<nat>
    requires n <= |table|
  {
    if n == 0 then caps else UpdateCap(table, n - 1, scopes, cpu, UpdateUpTo(table, n - 1, scopes, cpu, caps))
  }

  /** A boot-scope capability found on this, the boot, CPU. */
  predicate BootHit(table: Table, n: nat, scopes: set<Scope>, cpu: Cpu, caps: set<nat>)
    requires n < |table|
  {
    && table[n].Some? && table[n].value.scope == BootCpu && BootCpu in scopes
    && n in cpu && (table[n].value.matchAll || n !in caps)
  }

  /** The capabilities after the boot CPU cpus[0] and the other early CPUs in turn. */
  function Early(table: Table, cpus: seq<Cpu>): set<nat>
    requires cpus != []
    decreases |cpus|
  {
    if |cpus| == 1 then UpdateUpTo(table, |table|, BOOT_SCOPES, cpus[0], {})
    else UpdateUpTo(table, |table|, {LocalCpu}, cpus[|cpus| - 1], Early(table, cpus[..|cpus| - 1]))
  }

  /** Capability n is decided by its own round alone. */
  lemma {:induction false} UpdateOne(table: Table, k: nat, scopes: set<Scope>, cpu: Cpu, caps: set<nat>, n: nat)
    requires n < |table| && k <= |table|
    ensures n in UpdateUpTo(table, k, scopes, cpu, caps) <==>
            n in (if n < k then UpdateCap(table, n, scopes, cpu, caps) else caps)
    decreases k
  {
    if k > 0 {
      UpdateOne(table, k - 1, scopes, cpu, caps, n);
    }
  }

  /** After any sequence of early CPUs: a match-all local capability is set exactly when every CPU
      has it, any other local one exactly when some CPU has it, and a boot capability exactly when
      the boot CPU has it. */
  lemma {:induction false} EarlyExactly(table: Table, cpus: seq<Cpu>, n: nat)
    requires cpus != [] && n < |table| && table[n].Some?
    ensures var cap := table[n].value;
            n in Early(table, cpus) <==>
              match cap.scope {
                case LocalCpu =>
                  if cap.matchAll then forall k :: 0 <= k < |cpus| ==> n in cpus[k]
                  else exists k :: 0 <= k < |cpus| && n in cpus[k]
                case BootCpu => n in cpus[0]
                case SystemWide => false
              }
    decreases |cpus|
  {
    if |cpus| == 1 {
      UpdateOne(table, |table|, BOOT_SCOPES, cpus[0], {}, n);
    } else {
      var init, last := cpus[..|cpus| - 1], cpus[|cpus| - 1];
      EarlyExactly(table, init, n);
      UpdateOne(table, |table|, {LocalCpu}, last, Early(table, init), n);
      assert forall k :: 0 <= k < |init| ==> init[k] == cpus[k];
      assert cpus[|cpus| - 1] == last;
    }
  }

  // --------------------------------------------------------------------------
  // Late CPUs

  /** Whether a CPU gets along with the final state of capability n. */
  predicate Fits(cap: Cap, isSet: bool, has: bool) {
    if isSet then has || cap.lateOptional else !has || cap.latePermitted
  }

  predicate Conflict(table: Table, n: nat, scopes: set<Scope>, cpu: Cpu, caps: set<nat>) {
    && n < |table| && table[n].Some? && table[n].value.scope in scopes
    && !Fits(table[n].value, n in caps, n in cpu)
  }

  /** Capabilities whose cpu_enable a CPU runs, up to number n. */
  function Enables(table: Table, n: nat, scopes: set<Scope>, caps: set<nat>): seq<nat>
    requires n <= |table|
  {
    if n == 0 then []
    else
      var before := Enables(table, n - 1, scopes, caps);
      if table[n - 1].Some? && table[n - 1].value.scope in scopes && n - 1 in caps then before + [n - 1] else before
  }

  /** These are, in increasing order, exactly the capabilities of those scopes that the system has. */
  lemma {:induction false} EnablesExactly(table: Table, n: nat, scopes: set<Scope>, caps: set<nat>)
    requires n <= |table|
    ensures forall k: nat :: k in Enables(table, n, scopes, caps) <==>
              k < n && table[k].Some? && table[k].value.scope in scopes && k in caps
    ensures forall i, j :: 0 <= i < j < |Enables(table, n, scopes, caps)| ==>
              Enables(table, n, scopes, caps)[i] < Enables(table, n, scopes, caps)[j]
  {
    if n > 0 {
      EnablesExactly(table, n - 1, scopes, caps);
      var before := Enables(table, n - 1, scopes, caps);
      assert forall i :: 0 <= i < |before| ==> before[i] in before;
    }
  }

  /** On the boot CPU's round, the boot capabilities are those of boot scope that it has. */
  lemma BootHitMeans(table: Table, n: nat, cpu: Cpu)
    requires n < |table|
    ensures BootHit(table, n, BOOT_SCOPES, cpu, {}) <==> table[n].Some? && table[n].value.scope == BootCpu && n in cpu
    ensures forall later :: !BootHit(table, n, {LocalCpu}, later, {}) && !BootHit(table, n, {SystemWide}, later, {})
  {
  }

  class System {
    const table: Table
    var caps: set<nat>
    var bootCaps: set<nat>

    constructor (t: Table)
      ensures table == t && caps == {} && bootCaps == {}
    {
      table, caps, bootCaps := t, {}, {};
    }

    method UpdateCpuCapabilities(scopes: set<Scope>, cpu: Cpu)
      modifies this
      ensures caps == UpdateUpTo(table, |table|, scopes, cpu, old(caps))
      ensures forall n: nat :: n in bootCaps <==>
                n in old(bootCaps) || (n < |table| && BootHit(table, n, scopes, cpu, old(caps)))
    {
      for i := 0 to |table|
        invariant caps == UpdateUpTo(table, i, scopes, cpu, old(caps))
        invariant forall n: nat :: n in bootCaps <==>
                    n in old(bootCaps) || (n < i && BootHit(table, n, scopes, cpu, old(caps)))
      {
        UpdateOne(table, i, scopes, cpu, old(caps), i);
        if table[i].None? || table[i].value.scope !in scopes { continue; }
        var matchAll := table[i].value.matchAll;
        var capsSet := i in caps;
        var bootCpu := BootCpu in scopes;
        if !matchAll && capsSet { continue; }
        if matchAll && !capsSet && !bootCpu { continue; }
        if i !in cpu {
          if matchAll { caps := caps - {i}; }
          continue;
        }
        caps := caps + {i};
        if bootCpu && table[i].value.scope == BootCpu { bootCaps := bootCaps + {i}; }
      }
    }

    /** A CPU that comes up after the capabilities are final: it is stopped at the first conflict;
        until then it enables what the system has. */
    method VerifyLocalCpuCaps(scopes: set<Scope>, cpu: Cpu) returns (conflict: Option<nat>, enabled: seq<nat>)
      ensures conflict.None? <==> forall n: nat :: !Conflict(table, n, scopes, cpu, caps)
      ensures conflict.Some? ==>
                && Conflict(table, conflict.value, scopes, cpu, caps)
                && forall n: nat :: Conflict(table, n, scopes, cpu, caps) ==> conflict.value <= n
      ensures enabled == Enables(table, if conflict.Some? then conflict.value else |table|, scopes, caps)
    {
      enabled := [];
      for i := 0 to |table|
        invariant forall n: nat :: n < i ==> !Conflict(table, n, scopes, cpu, caps)
        invariant enabled == Enables(table, i, scopes, caps)
      {
        if table[i].None? || table[i].value.scope !in scopes { continue; }
        var cpuHasCap := i in cpu;
        var systemHasCap := i in caps;
        if systemHasCap {
          if !cpuHasCap && !table[i].value.lateOptional {
            assert Conflict(table, i, scopes, cpu, caps);
            return Some(i), enabled;
          }
          enabled := enabled + [i];
        } else {
          if cpuHasCap && !table[i].value.latePermitted {
            assert Conflict(table, i, scopes, cpu, caps);
            return Some(i), enabled;
          }
        }
      }
      return None, enabled;
    }
  }

  /** A late CPU survives both checks. */
  predicate Survives(table: Table, caps: set<nat>, cpu: Cpu) {
    && (forall n :: 0 <= n < |table| ==> !Conflict(table, n, {BootCpu}, cpu, caps))
    && (forall n :: 0 <= n < |table| ==> !Conflict(table, n, LATE_SCOPES, cpu, caps))
  }

  /** The final capabilities: after the early CPUs, the system-wide ones join. `system` holds the
      capabilities that match on the sanitised system as a whole. */
  function Final(table: Table, cpus: seq<Cpu>, system: Cpu): set<nat>
    requires cpus != []
  {
    UpdateUpTo(table, |table|, {SystemWide}, system, Early(table, cpus))
  }

  /** A system-wide capability is final exactly when the system matches it and it is not one that
      every early CPU had to match; the other kinds stay as the early CPUs left them. */
  lemma FinalExactly(table: Table, cpus: seq<Cpu>, system: Cpu, n: nat)
    requires cpus != [] && n < |table| && table[n].Some?
    ensures n in Final(table, cpus, system) <==>
              if table[n].value.scope == SystemWide then n in system && !table[n].value.matchAll
              else n in Early(table, cpus)
  {
    EarlyExactly(table, cpus, n);
    UpdateOne(table, |table|, {SystemWide}, system, Early(table, cpus), n);
  }

  /** What boot CPU, early CPUs and system settled on for capability n. */
  ghost predicate Settled(table: Table, cpus: seq<Cpu>, system: Cpu, n: nat)
    requires cpus != [] && n < |table| && table[n].Some?
  {
    match table[n].value.scope
    case LocalCpu =>
      if table[n].value.matchAll then forall k :: 0 <= k < |cpus| ==> n in cpus[k]
      else exists k :: 0 <= k < |cpus| && n in cpus[k]
    case BootCpu => n in cpus[0]
    case SystemWide => n in system && !table[n].value.matchAll
  }

  /** A late CPU survives if and only if, for every capability: where it was settled on, the CPU has it
      or that is optional; where not, the CPU lacks it or that is permitted. */
  lemma {:induction false} SurvivorsMatchEarlyCpus(table: Table, cpus: seq<Cpu>, system: Cpu, late: Cpu)
    requires cpus != []
    ensures Survives(table, Final(table, cpus, system), late) <==>
              forall n :: 0 <= n < |table| && table[n].Some? ==>
                && (Settled(table, cpus, system, n) ==> n in late || table[n].value.lateOptional)
                && (!Settled(table, cpus, system, n) ==> n !in late || table[n].value.latePermitted)
  {
    SurvivesIff(table, Final(table, cpus, system), late);
    forall n: nat | n < |table| && table[n].Some?
      ensures n in Final(table, cpus, system) <==> Settled(table, cpus, system, n)
    {
      EarlyExactly(table, cpus, n);
      FinalExactly(table, cpus, system, n);
    }
  }

  /** Conversely a CPU that fits every capability, of every scope, survives. */
  lemma SurvivesIff(table: Table, caps: set<nat>, cpu: Cpu)
    ensures Survives(table, caps, cpu) <==>
              forall n :: 0 <= n < |table| && table[n].Some? ==> Fits(table[n].value, n in caps, n in cpu)
  {
    if Survives(table, caps, cpu) {
      forall n | 0 <= n < |table| && table[n].Some? ensures Fits(table[n].value, n in caps, n in cpu) {
        var scope := table[n].value.scope;
        assert scope == BootCpu || scope == LocalCpu || scope == SystemWide;
        assert !Conflict(table, n, {BootCpu}, cpu, caps) && !Conflict(table, n, LATE_SCOPES, cpu, caps);
      }
    }
  }
}
