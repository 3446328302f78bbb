/** arm64 CPU feature registers: what the system-wide value of each field is after any number of
    CPUs, and what becomes of the overrides asked for on the command line. */
module CpuFeatures {
  import opened Words
  import Arith

  datatype Kind = Exact | LowerSafe | HigherSafe | HigherOrZeroSafe

  datatype FtrBits = FtrBits(shift: nat, width: nat, sign: bool, kind: Kind, safeVal: int, strict: bool,
                             visible: bool) {
    function Mask(): Word {
      Range(shift, width)
    }
    predicate Valid() {
      1 <= width < 32 && shift + width <= 64
    }
  }

  /** The number v stands for in a field: v cut to the field's bits, sign-extended if signed. */
  function Norm(f: FtrBits, v: int): int {
    var m := v % Pow2(f.width);
    if f.sign && f.width > 0 && m >= Pow2(f.width - 1) then m - Pow2(f.width) else m
  }

  function Value(f: FtrBits, w: Word): int {
    Norm(f, Digits(w, f.shift, f.width))
  }

  predicate InField(f: FtrBits, v: int) {
    Norm(f, v) == v
  }

  function SetValue(f: FtrBits, reg: Word, v: int): Word {
    (reg - f.Mask()) + Place(v, f.shift, f.width)
  }

  function Minimum(a: int, b: int): int { if a < b then a else b }
  function Maximum(a: int, b: int): int { if a > b then a else b }

  function SafeValue(f: FtrBits, new_: int, cur: int): int {
    match f.kind
    case Exact => f.safeVal
    case LowerSafe => Minimum(new_, cur)
    case HigherOrZeroSafe => if cur == 0 || new_ == 0 then 0 else Maximum(new_, cur)
    case HigherSafe => Maximum(new_, cur)
  }

  // --------------------------------------------------------------------------
  // Fields

  lemma NormIdempotent(f: FtrBits, v: int)
    ensures InField(f, Norm(f, v))
  {
    var p, m := Pow2(f.width), v % Pow2(f.width);
    Arith.ModUnique(m, p, 0, m);
    if f.sign && f.width > 0 && m >= Pow2(f.width - 1) {
      Arith.ModUnique(m - p, p, -1, m);
    }
  }

  /** What a field shows: the number in its bits, read as two's complement if the field is signed. */
  lemma ValueMeans(f: FtrBits, w: Word)
    requires f.Valid()
    ensures f.sign ==> 0 <= Value(f, w) + Pow2(f.width - 1) < Pow2(f.width)
    ensures !f.sign ==> 0 <= Value(f, w) < Pow2(f.width)
    ensures (Value(f, w) - Digits(w, f.shift, f.width)) % Pow2(f.width) == 0
    ensures Value(f, w) < 0 <==> f.sign && f.shift + f.width - 1 in w
  {
    hide Digits;
    var d: int, p: int, half: int := Digits(w, f.shift, f.width), Pow2(f.width), Pow2(f.width - 1);
    assert p == 2 * half;
    DigitsBound(w, f.shift, f.width);
    Arith.ModUnique(d, p, 0, d);
    Arith.ModUnique(0, p, 0, 0);
    Arith.ModUnique(-p, p, -1, 0);
    DigitsBit(w, f.shift, f.width, f.width - 1);
    if d < half { Arith.ModUnique(d, half, 0, d); } else { Arith.ModUnique(d, half, 1, d - half); }
  }

  lemma ValueInField(f: FtrBits, w: Word)
    ensures InField(f, Value(f, w))
  {
    NormIdempotent(f, Digits(w, f.shift, f.width));
  }

  lemma ZeroInField(f: FtrBits)
    ensures InField(f, 0)
  {
    Arith.ModUnique(0, Pow2(f.width), 0, 0);
  }

  /** A stored value reads back, as far as it fits. */
  lemma SetReads(f: FtrBits, reg: Word, v: int)
    ensures Value(f, SetValue(f, reg, v)) == Norm(f, v)
  {
    var p := Place(v, f.shift, f.width);
    PlaceInside(v, f.shift, f.width);
    DigitsLocal(SetValue(f, reg, v), p, f.shift, f.width);
    PlaceReads(v, f.shift, f.width);
    Arith.ModUnique(v % Pow2(f.width), Pow2(f.width), 0, v % Pow2(f.width));
  }

  ghost predicate Apart(f: FtrBits, g: FtrBits) {
    f.shift + f.width <= g.shift || g.shift + g.width <= f.shift
  }

  /** And leaves other fields alone. */
  lemma SetLocal(f: FtrBits, g: FtrBits, reg: Word, v: int)
    requires Apart(f, g)
    ensures Value(g, SetValue(f, reg, v)) == Value(g, reg)
  {
    PlaceInside(v, f.shift, f.width);
    DigitsLocal(SetValue(f, reg, v), reg, g.shift, g.width);
  }

  // --------------------------------------------------------------------------
  // The merge of one field over many CPUs

  /** The system value r of a field whose CPUs show the values vs, without regard to their order. */
  ghost predicate IsMerged(f: FtrBits, vs: seq<int>, r: int) {
    match f.kind
    case LowerSafe => r in vs && forall v :: v in vs ==> r <= v
    case HigherSafe => r in vs && forall v :: v in vs ==> v <= r
    case HigherOrZeroSafe => if 0 in vs then r == 0 else r in vs && forall v :: v in vs ==> v <= r
    case Exact => vs != [] && if forall v :: v in vs ==> v == vs[0] then r == vs[0] else r == Norm(f, f.safeVal)
  }

  /** It is a function of the set of values shown: any order of the CPUs, and any repetition, gives
      the same result. */
  lemma MergedUnique(f: FtrBits, vs: seq<int>, ws: seq<int>, r: int, r': int)
    requires IsMerged(f, vs, r) && IsMerged(f, ws, r')
    requires forall v :: v in vs <==> v in ws
    ensures r == r'
  {
    if f.kind.Exact? {
      assert vs[0] in ws && ws[0] in vs;
    }
  }

  /** One more CPU, as update_cpu_ftr_reg treats it. */
  function Merge(f: FtrBits, cur: int, v: int): int {
    if cur == v then cur else Norm(f, SafeValue(f, v, cur))
  }

  lemma MergeStep(f: FtrBits, vs: seq<int>, cur: int, v: int)
    requires IsMerged(f, vs, cur) && InField(f, cur) && InField(f, v)
    ensures IsMerged(f, vs + [v], Merge(f, cur, v)) && InField(f, Merge(f, cur, v))
  {
    hide Norm;
    var ws := vs + [v];
    assert forall x :: x in ws <==> x in vs || x == v;
    ZeroInField(f);
    NormIdempotent(f, f.safeVal);
    if f.kind.Exact? {
      assert ws[0] == vs[0];
      if forall x :: x in vs ==> x == vs[0] {
        assert v in ws && vs[0] in vs;
      } else {
        var x :| x in vs && x != vs[0];
        assert x in ws;
      }
    }
  }

  /** The override of a field is safe when the merge with the boot CPU's value gives it back. */
  predicate Accepted(f: FtrBits, ovr: int, boot: int) {
    ovr == SafeValue(f, ovr, boot)
  }

  /** An accepted override acts as one more CPU that shows its value. */
  lemma OverrideIsCpu(f: FtrBits, ovr: int, boot: int)
    requires InField(f, ovr) && InField(f, boot)
    ensures IsMerged(f, [boot], boot)
    ensures Accepted(f, ovr, boot) ==> IsMerged(f, [boot, ovr], ovr)
  {
    hide Norm;
    if f.kind.Exact? && Accepted(f, ovr, boot) && boot != ovr {
      assert [boot, ovr][1] == ovr && ovr in [boot, ovr];
    }
  }

  // --------------------------------------------------------------------------
  // A whole register

  datatype Override = Override(val: Word, mask: Word)

  ghost predicate ValidTable(bits: seq<FtrBits>) {
    && (forall i :: 0 <= i < |bits| ==> bits[i].Valid())
    && (forall i, j :: 0 <= i < j < |bits| ==> Apart(bits[i], bits[j]))
  }

  /** All bits of the first n fields. */
  function Covered(bits: seq<FtrBits>, n: nat): Word
    requires n <= |bits|
  {
    if n == 0 then {} else Covered(bits, n - 1) + bits[n - 1].Mask()
  }

  /** What the boot CPU's initialisation does with the override of one field. */
  function Strip(f: FtrBits, o: Override, boot: Word): Override {
    if f.Mask() <= o.mask then
      if Accepted(f, Value(f, o.val), Value(f, boot)) then o
      else Override(o.val - f.Mask(), o.mask - f.Mask())
    else if f.Mask() <= o.val then Override(o.val - f.Mask(), o.mask)
    else o
  }

  function StripAll(bits: seq<FtrBits>, n: nat, o: Override, boot: Word): Override
    requires n <= |bits|
  {
    if n == 0 then o else Strip(bits[n - 1], StripAll(bits, n - 1, o, boot), boot)
  }

  /** The field's value in the system register after the boot CPU. */
  function BootValue(f: FtrBits, o: Override, boot: Word): int {
    if f.Mask() <= o.mask && Accepted(f, Value(f, o.val), Value(f, boot)) then Value(f, o.val) else Value(f, boot)
  }

  function InitSys(bits: seq<FtrBits>, n: nat, o: Override, boot: Word): Word
    requires n <= |bits|
  {
    if n == 0 then {} else SetValue(bits[n - 1], InitSys(bits, n - 1, o, boot), BootValue(bits[n - 1], o, boot))
  }

  /** One more CPU: fields that differ are merged. */
  function UpdateSys(bits: seq<FtrBits>, n: nat, sys: Word, cpu: Word): Word
    requires n <= |bits|
  {
    if n == 0 then sys
    else
      var s, f := UpdateSys(bits, n - 1, sys, cpu), bits[n - 1];
      if Value(f, s) == Value(f, cpu) then s else SetValue(f, s, SafeValue(f, Value(f, cpu), Value(f, s)))
  }

  /** The system register after the boot CPU cpus[0] and the others in turn. */
  function System(bits: seq<FtrBits>, o: Override, cpus: seq<Word>): Word
    requires cpus != []
    decreases |cpus|
  {
    if |cpus| == 1 then InitSys(bits, |bits|, o, cpus[0])
    else UpdateSys(bits, |bits|, System(bits, o, cpus[..|cpus| - 1]), cpus[|cpus| - 1])
  }

  lemma {:induction false} InitFields(bits: seq<FtrBits>, n: nat, o: Override, boot: Word, i: nat)
    requires ValidTable(bits) && i < n <= |bits|
    ensures Value(bits[i], InitSys(bits, n, o, boot)) == BootValue(bits[i], o, boot)
    decreases n
  {
    hide Norm;
    hide Accepted;
    var f, s, v := bits[n - 1], InitSys(bits, n - 1, o, boot), BootValue(bits[n - 1], o, boot);
    if i == n - 1 {
      SetReads(f, s, v);
      ValueInField(f, o.val);
      ValueInField(f, boot);
    } else {
      InitFields(bits, n - 1, o, boot, i);
      SetLocal(f, bits[i], s, v);
    }
  }

  lemma {:induction false} InitCovered(bits: seq<FtrBits>, n: nat, o: Override, boot: Word)
    requires n <= |bits|
    ensures InitSys(bits, n, o, boot) <= Covered(bits, n)
  {
    if n > 0 {
      InitCovered(bits, n - 1, o, boot);
      PlaceInside(BootValue(bits[n - 1], o, boot), bits[n - 1].shift, bits[n - 1].width);
    }
  }

  lemma {:induction false} UpdateFields(bits: seq<FtrBits>, n: nat, sys: Word, cpu: Word, i: nat)
    requires ValidTable(bits) && n <= |bits| && i < |bits|
    ensures Value(bits[i], UpdateSys(bits, n, sys, cpu))
         == if i < n then Merge(bits[i], Value(bits[i], sys), Value(bits[i], cpu)) else Value(bits[i], sys)
    decreases n
  {
    hide Norm;
    hide SafeValue;
    if n > 0 {
      var f, s := bits[n - 1], UpdateSys(bits, n - 1, sys, cpu);
      UpdateFields(bits, n - 1, sys, cpu, i);
      UpdateFields(bits, n - 1, sys, cpu, n - 1);
      var v := SafeValue(f, Value(f, cpu), Value(f, s));
      SetReads(f, s, v);
      if i != n - 1 { SetLocal(f, bits[i], s, v); }
    }
  }

  lemma {:induction false} UpdateCovered(bits: seq<FtrBits>, n: nat, sys: Word, cpu: Word)
    requires n <= |bits| && sys <= Covered(bits, |bits|)
    ensures UpdateSys(bits, n, sys, cpu) <= Covered(bits, |bits|)
  {
    hide SafeValue;
    hide Value;
    if n > 0 {
      UpdateCovered(bits, n - 1, sys, cpu);
      var f, s := bits[n - 1], UpdateSys(bits, n - 1, sys, cpu);
      var v := SafeValue(f, Value(f, cpu), Value(f, s));
      PlaceInside(v, f.shift, f.width);
      MaskCovered(bits, |bits|, n - 1);
    }
  }

  lemma {:induction false} MaskCovered(bits: seq<FtrBits>, n: nat, i: nat)
    requires i < n <= |bits|
    ensures bits[i].Mask() <= Covered(bits, n)
  {
    if i < n - 1 { MaskCovered(bits, n - 1, i); }
  }

  /** The values the CPUs show in a field; an accepted override is one more, right after the boot
      CPU. */
  function Shown(f: FtrBits, o: Override, cpus: seq<Word>): seq<int>
    requires cpus != []
    decreases |cpus|
  {
    if |cpus| == 1 then
      if f.Mask() <= o.mask && Accepted(f, Value(f, o.val), Value(f, cpus[0])) then [Value(f, cpus[0]), Value(f, o.val)]
      else [Value(f, cpus[0])]
    else Shown(f, o, cpus[..|cpus| - 1]) + [Value(f, cpus[|cpus| - 1])]
  }

  /** After any sequence of CPUs every field of the system register is the order-free merge of the
      values shown, and no bit is set outside the fields. */
  lemma {:induction false} SystemIsMerged(bits: seq<FtrBits>, o: Override, cpus: seq<Word>)
    requires ValidTable(bits) && cpus != []
    ensures forall i :: 0 <= i < |bits| ==> IsMerged(bits[i], Shown(bits[i], o, cpus),
                                                     Value(bits[i], System(bits, o, cpus)))
    ensures System(bits, o, cpus) <= Covered(bits, |bits|)
    decreases |cpus|
  {
    hide Norm;
    hide IsMerged;
    hide SafeValue;
    if |cpus| == 1 {
      InitCovered(bits, |bits|, o, cpus[0]);
    } else {
      SystemIsMerged(bits, o, cpus[..|cpus| - 1]);
      UpdateCovered(bits, |bits|, System(bits, o, cpus[..|cpus| - 1]), cpus[|cpus| - 1]);
    }
    forall i | 0 <= i < |bits|
      ensures IsMerged(bits[i], Shown(bits[i], o, cpus), Value(bits[i], System(bits, o, cpus)))
    {
      SystemField(bits, o, cpus, i);
    }
  }

  lemma SystemField(bits: seq<FtrBits>, o: Override, cpus: seq<Word>, i: nat)
    requires ValidTable(bits) && cpus != [] && i < |bits|
    requires |cpus| > 1 ==>
               var init := cpus[..|cpus| - 1];
               IsMerged(bits[i], Shown(bits[i], o, init), Value(bits[i], System(bits, o, init)))
    ensures IsMerged(bits[i], Shown(bits[i], o, cpus), Value(bits[i], System(bits, o, cpus)))
  {
    hide Norm;
    hide IsMerged;
    hide SafeValue;
    var f := bits[i];
    if |cpus| == 1 {
      InitFields(bits, |bits|, o, cpus[0], i);
      ValueInField(f, o.val);
      ValueInField(f, cpus[0]);
      OverrideIsCpu(f, Value(f, o.val), Value(f, cpus[0]));
    } else {
      var init, cpu := cpus[..|cpus| - 1], cpus[|cpus| - 1];
      var sys := System(bits, o, init);
      UpdateFields(bits, |bits|, sys, cpu, i);
      ValueInField(f, sys);
      ValueInField(f, cpu);
      MergeStep(f, Shown(f, o, init), Value(f, sys), Value(f, cpu));
    }
  }

  // --------------------------------------------------------------------------
  // Order

  const NO_OVERRIDE := Override({}, {})

  function Values(f: FtrBits, cpus: seq<Word>): (vs: seq<int>)
    ensures |vs| == |cpus| && forall k :: 0 <= k < |cpus| ==> vs[k] == Value(f, cpus[k])
  {
    seq(|cpus|, k requires 0 <= k < |cpus| => Value(f, cpus[k]))
  }

  /** The override of a field as far as it can count without knowing which CPU boots. */
  function Offered(f: FtrBits, o: Override): seq<int> {
    if f.Mask() <= o.mask && (f.kind.Exact? ==> Value(f, o.val) == f.safeVal) then [Value(f, o.val)] else []
  }

  /** Everything that may count towards a field: no CPU is special. */
  function Everything(f: FtrBits, o: Override, cpus: seq<Word>): seq<int> {
    Values(f, cpus) + Offered(f, o)
  }

  lemma MergedSameSet(f: FtrBits, vs: seq<int>, ws: seq<int>, r: int)
    requires IsMerged(f, vs, r) && forall v :: v in vs <==> v in ws
    ensures IsMerged(f, ws, r)
  {
    hide Norm;
    if f.kind.Exact? {
      var x, y := vs[0], ws[0];
      assert x in vs && y in ws;
      assert x in ws && y in vs;
    } else if f.kind.HigherOrZeroSafe? && 0 in vs {
      assert 0 in ws;
    }
  }

  /** A refused override would not have changed the merge: the boot CPU's own value already takes
      precedence over it. */
  lemma RefusedIsMoot(f: FtrBits, vs: seq<int>, r: int, ovr: int, boot: int)
    requires IsMerged(f, vs, r) && boot in vs && !Accepted(f, ovr, boot) && !f.kind.Exact?
    ensures IsMerged(f, vs + [ovr], r)
  {
    assert forall v :: v in vs + [ovr] <==> v in vs || v == ovr;
  }

  lemma {:induction false} ShownSet(f: FtrBits, o: Override, cpus: seq<Word>, v: int)
    requires cpus != []
    ensures v in Shown(f, o, cpus) <==>
              || v in Values(f, cpus)
              || (f.Mask() <= o.mask && Accepted(f, Value(f, o.val), Value(f, cpus[0])) && v == Value(f, o.val))
    decreases |cpus|
  {
    hide Value;
    hide Accepted;
    var n := |cpus| - 1;
    if n > 0 {
      ShownSet(f, o, cpus[..n], v);
      assert Values(f, cpus) == Values(f, cpus[..n]) + [Value(f, cpus[n])];
    } else {
      assert Values(f, cpus) == [Value(f, cpus[0])];
    }
  }

  lemma ShownIsEverything(f: FtrBits, o: Override, cpus: seq<Word>, r: int)
    requires cpus != [] && IsMerged(f, Shown(f, o, cpus), r)
    ensures IsMerged(f, Everything(f, o, cpus), r)
  {
    hide Value;
    hide IsMerged;
    hide Shown;
    var ovr, boot := Value(f, o.val), Value(f, cpus[0]);
    var vs, ws := Shown(f, o, cpus), Values(f, cpus);
    forall v ensures v in vs <==> v in ws || (f.Mask() <= o.mask && Accepted(f, ovr, boot) && v == ovr) {
      ShownSet(f, o, cpus, v);
    }
    assert boot == ws[0] && boot in ws;
    if f.Mask() <= o.mask && !Accepted(f, ovr, boot) && !f.kind.Exact? {
      MergedSameSet(f, vs, ws, r);
      RefusedIsMoot(f, ws, r, ovr, boot);
    } else {
      assert Offered(f, o) == if f.Mask() <= o.mask && Accepted(f, ovr, boot) then [ovr] else [];
      MergedSameSet(f, vs, ws + Offered(f, o), r);
    }
  }

  lemma SameEverything(f: FtrBits, o: Override, cpus: seq<Word>, cpus': seq<Word>, v: int)
    requires forall w :: w in cpus ==> w in cpus'
    ensures v in Everything(f, o, cpus) ==> v in Everything(f, o, cpus')
  {
    hide Value;
    hide Offered;
    var vs, vs' := Values(f, cpus), Values(f, cpus');
    if v in vs {
      var k :| 0 <= k < |vs| && vs[k] == v;
      assert cpus[k] in cpus';
      var j :| 0 <= j < |cpus'| && cpus'[j] == cpus[k];
      assert vs'[j] == v;
    }
  }

  lemma NormInjective(f: FtrBits, a: nat, b: nat)
    requires a < Pow2(f.width) && b < Pow2(f.width) && Norm(f, a) == Norm(f, b)
    ensures a == b
  {
    Arith.ModUnique(a, Pow2(f.width), 0, a);
    Arith.ModUnique(b, Pow2(f.width), 0, b);
  }

  lemma {:induction false} FieldsDetermine(bits: seq<FtrBits>, n: nat, w: Word, w': Word)
    requires n <= |bits| && forall i :: 0 <= i < n ==> Value(bits[i], w) == Value(bits[i], w')
    ensures forall b: nat :: b in Covered(bits, n) ==> (b in w <==> b in w')
  {
    if n > 0 {
      var f := bits[n - 1];
      FieldsDetermine(bits, n - 1, w, w');
      assert Value(f, w) == Value(f, w');
      DigitsBound(w, f.shift, f.width);
      DigitsBound(w', f.shift, f.width);
      NormInjective(f, Digits(w, f.shift, f.width), Digits(w', f.shift, f.width));
      DigitsInjective(w, w', f.shift, f.width);
    }
  }

  /** Two boots with the same CPUs and the same override request, in whatever order and whichever of
      the CPUs boots first, end with the same system register, bit for bit. */
  lemma {:induction false} OrderDoesNotMatter(bits: seq<FtrBits>, o: Override, cpus: seq<Word>, cpus': seq<Word>)
    requires ValidTable(bits) && cpus != [] && cpus' != []
    requires forall w :: w in cpus <==> w in cpus'
    ensures System(bits, o, cpus) == System(bits, o, cpus')
  {
    hide Norm;
    hide IsMerged;
    var s, s' := System(bits, o, cpus), System(bits, o, cpus');
    SystemIsMerged(bits, o, cpus);
    SystemIsMerged(bits, o, cpus');
    forall i | 0 <= i < |bits| ensures Value(bits[i], s) == Value(bits[i], s') {
      var f := bits[i];
      ShownIsEverything(f, o, cpus, Value(f, s));
      ShownIsEverything(f, o, cpus', Value(f, s'));
      var vs, vs' := Everything(f, o, cpus), Everything(f, o, cpus');
      forall v ensures v in vs <==> v in vs' {
        SameEverything(f, o, cpus, cpus', v);
        SameEverything(f, o, cpus', cpus, v);
      }
      MergedUnique(f, vs, vs', Value(f, s), Value(f, s'));
    }
    FieldsDetermine(bits, |bits|, s, s');
  }

  /** A signed lower-safe field with the top bit set on any CPU, which is how a missing feature shows,
      has it set in the system register. */
  lemma AbsenceWins(bits: seq<FtrBits>, o: Override, cpus: seq<Word>, i: nat, k: nat)
    requires ValidTable(bits) && i < |bits| && k < |cpus| && bits[i].sign && bits[i].kind == LowerSafe
    requires bits[i].shift + bits[i].width - 1 in cpus[k]
    ensures bits[i].shift + bits[i].width - 1 in System(bits, o, cpus)
  {
    hide Value;
    var f, s := bits[i], System(bits, o, cpus);
    SystemIsMerged(bits, o, cpus);
    ShownIsEverything(f, o, cpus, Value(f, s));
    assert Values(f, cpus)[k] == Value(f, cpus[k]) && Everything(f, o, cpus)[k] == Value(f, cpus[k]);
    assert Value(f, cpus[k]) in Everything(f, o, cpus);
    ValueMeans(f, cpus[k]);
    ValueMeans(f, s);
  }

  // --------------------------------------------------------------------------
  // Overrides across the boot CPU's initialisation

  /** The three shapes a field's override can have on arrival. */
  predicate Untouched(field: Word, o: Override) {
    field !! o.val && field !! o.mask
  }
  predicate Filtered(field: Word, o: Override) {
    field <= o.val && field !! o.mask
  }
  predicate IsSet(field: Word, o: Override) {
    field <= o.mask
  }
  predicate Known(field: Word, o: Override) {
    Untouched(field, o) || Filtered(field, o) || IsSet(field, o)
  }

  /** And the two it can have afterwards. */
  predicate Settled(f: FtrBits, o: Override, boot: Word) {
    || (IsSet(f.Mask(), o) && Accepted(f, Value(f, o.val), Value(f, boot)))
    || Untouched(f.Mask(), o)
  }

  /** Two overrides that agree on a field. */
  ghost predicate Agree(f: FtrBits, o: Override, o': Override) {
    forall b: nat :: b in f.Mask() ==> (b in o.val <==> b in o'.val) && (b in o.mask <==> b in o'.mask)
  }

  lemma AgreeFacts(f: FtrBits, o: Override, o': Override)
    requires Agree(f, o, o')
    ensures Value(f, o.val) == Value(f, o'.val)
    ensures f.Mask() <= o.mask <==> f.Mask() <= o'.mask
    ensures Known(f.Mask(), o) <==> Known(f.Mask(), o')
    ensures forall boot :: Settled(f, o, boot) <==> Settled(f, o', boot)
  {
    DigitsLocal(o.val, o'.val, f.shift, f.width);
    hide Norm;
    hide Accepted;
    assert forall w: Word :: f.Mask() <= w <==> forall b: nat :: b in f.Mask() ==> b in w;
  }

  lemma StripSettles(f: FtrBits, o: Override, boot: Word)
    requires f.Valid() && Known(f.Mask(), o)
    ensures Settled(f, Strip(f, o, boot), boot)
  {
    hide Value;
    hide Accepted;
    assert f.shift in f.Mask();
  }

  lemma StripLocal(f: FtrBits, g: FtrBits, o: Override, boot: Word)
    requires Apart(f, g)
    ensures Agree(g, o, Strip(f, o, boot))
  {
    hide Value;
    hide Accepted;
  }

  lemma {:induction false} StripAllLater(bits: seq<FtrBits>, n: nat, o: Override, boot: Word, i: nat)
    requires ValidTable(bits) && n <= i < |bits|
    ensures Agree(bits[i], o, StripAll(bits, n, o, boot))
    decreases n
  {
    if n > 0 {
      StripAllLater(bits, n - 1, o, boot, i);
      StripLocal(bits[n - 1], bits[i], StripAll(bits, n - 1, o, boot), boot);
    }
  }

  /** Whatever shape each field's override had, afterwards it is fully masked with a value accepted
      as safe, or gone without a trace. */
  lemma {:induction false} OverridesSettle(bits: seq<FtrBits>, n: nat, o: Override, boot: Word, i: nat)
    requires ValidTable(bits) && i < n <= |bits| && Known(bits[i].Mask(), o)
    ensures Settled(bits[i], StripAll(bits, n, o, boot), boot)
    decreases n
  {
    hide Settled;
    hide Known;
    hide Strip;
    var before := StripAll(bits, n - 1, o, boot);
    if i == n - 1 {
      StripAllLater(bits, n - 1, o, boot, i);
      AgreeFacts(bits[i], o, before);
      StripSettles(bits[i], before, boot);
    } else {
      OverridesSettle(bits, n - 1, o, boot, i);
      StripLocal(bits[n - 1], bits[i], before, boot);
      AgreeFacts(bits[i], before, Strip(bits[n - 1], before, boot));
    }
  }

  /** And exactly the accepted ones are kept, value and all: nothing safe is dropped, nothing new
      comes in. */
  lemma {:induction false} OverridesExact(bits: seq<FtrBits>, n: nat, o: Override, boot: Word, i: nat)
    requires ValidTable(bits) && i < n <= |bits|
    ensures var o' := StripAll(bits, n, o, boot);
            && (IsSet(bits[i].Mask(), o') <==>
                  IsSet(bits[i].Mask(), o) && Accepted(bits[i], Value(bits[i], o.val), Value(bits[i], boot)))
            && (IsSet(bits[i].Mask(), o') ==> Value(bits[i], o'.val) == Value(bits[i], o.val))
    decreases n
  {
    hide Value;
    hide Accepted;
    hide Settled;
    hide Strip;
    var before := StripAll(bits, n - 1, o, boot);
    if i == n - 1 {
      StripAllLater(bits, n - 1, o, boot, i);
      AgreeFacts(bits[i], o, before);
      StripExact(bits[i], before, boot);
    } else {
      OverridesExact(bits, n - 1, o, boot, i);
      StripLocal(bits[n - 1], bits[i], before, boot);
      AgreeFacts(bits[i], before, Strip(bits[n - 1], before, boot));
    }
  }

  lemma StripExact(f: FtrBits, o: Override, boot: Word)
    requires f.Valid()
    ensures IsSet(f.Mask(), Strip(f, o, boot)) <==> IsSet(f.Mask(), o) && Accepted(f, Value(f, o.val), Value(f, boot))
    ensures IsSet(f.Mask(), Strip(f, o, boot)) ==> Strip(f, o, boot) == o
  {
    hide Value;
    hide Accepted;
    assert f.shift in f.Mask();
  }

  lemma SameBootValue(f: FtrBits, o: Override, o': Override, boot: Word)
    requires Agree(f, o, o')
    ensures BootValue(f, o, boot) == BootValue(f, o', boot)
  {
    AgreeFacts(f, o, o');
  }

  // --------------------------------------------------------------------------
  // The derived masks

  function StrictMask(bits: seq<FtrBits>, n: nat): Word
    requires n <= |bits|
  {
    if n == 0 then Range(0, 64)
    else if bits[n - 1].strict then StrictMask(bits, n - 1) else StrictMask(bits, n - 1) - bits[n - 1].Mask()
  }

  function UserMask(bits: seq<FtrBits>, n: nat): Word
    requires n <= |bits|
  {
    if n == 0 then {}
    else if bits[n - 1].visible then UserMask(bits, n - 1) + bits[n - 1].Mask() else UserMask(bits, n - 1)
  }

  function UserVal(bits: seq<FtrBits>, n: nat, start: Word): Word
    requires n <= |bits|
  {
    if n == 0 then start
    else if bits[n - 1].visible then UserVal(bits, n - 1, start)
    else SetValue(bits[n - 1], UserVal(bits, n - 1, start), bits[n - 1].safeVal)
  }

  /** A bit must match strictly unless some non-strict field covers it; in particular every bit no
      field covers must. User space sees exactly the visible fields' bits. */
  lemma {:induction false} MasksMean(bits: seq<FtrBits>, n: nat, b: nat)
    requires n <= |bits| && b < 64
    ensures b in StrictMask(bits, n) <==> forall i :: 0 <= i < n && b in bits[i].Mask() ==> bits[i].strict
    ensures b in UserMask(bits, n) <==> exists i :: 0 <= i < n && b in bits[i].Mask() && bits[i].visible
  {
    hide Range;
    if n > 0 { MasksMean(bits, n - 1, b); }
  }

  /** User space reads the safe value in every hidden field. */
  lemma {:induction false} HiddenFieldsSafe(bits: seq<FtrBits>, n: nat, start: Word, i: nat)
    requires ValidTable(bits) && i < n <= |bits| && !bits[i].visible
    ensures Value(bits[i], UserVal(bits, n, start)) == Norm(bits[i], bits[i].safeVal)
    decreases n
  {
    hide Value;
    hide Norm;
    hide SetValue;
    var f, u := bits[n - 1], UserVal(bits, n - 1, start);
    if i == n - 1 {
      SetReads(f, u, f.safeVal);
    } else {
      HiddenFieldsSafe(bits, n - 1, start, i);
      SetLocal(f, bits[i], u, f.safeVal);
    }
  }

  /** And what was there before in every visible one. */
  lemma {:induction false} VisibleFieldsKept(bits: seq<FtrBits>, n: nat, start: Word, i: nat)
    requires ValidTable(bits) && i < |bits| && n <= |bits| && bits[i].visible
    ensures Value(bits[i], UserVal(bits, n, start)) == Value(bits[i], start)
    decreases n
  {
    hide Value;
    hide SetValue;
    if n > 0 {
      VisibleFieldsKept(bits, n - 1, start, i);
      if !bits[n - 1].visible {
        SetLocal(bits[n - 1], bits[i], UserVal(bits, n - 1, start), bits[n - 1].safeVal);
      }
    }
  }

  // --------------------------------------------------------------------------
  // The kernel's loops

  class FtrReg {
    const bits: seq<FtrBits>
    var sysVal: Word
    var userVal: Word
    var strictMask: Word
    var userMask: Word
    var ovr: Override

    constructor (table: seq<FtrBits>, requested: Override)
      ensures bits == table && ovr == requested
    {
      bits, ovr := table, requested;
      sysVal, userVal, strictMask, userMask := {}, {}, {}, {};
    }

    /** Weighs the override of one field against the boot CPU's value and drops it if it is unsafe
        or was filtered out. */
    method ApplyOverride(f: FtrBits, boot: Word) returns (ftrNew: int)
      modifies this`ovr
      ensures ftrNew == BootValue(f, old(ovr), boot)
      ensures ovr == Strip(f, old(ovr), boot)
    {
      hide Value;
      hide Range;
      var ftrMask := f.Mask();
      ftrNew := Value(f, boot);
      var ftrOvr := Value(f, ovr.val);
      if ftrMask * ovr.mask == ftrMask {
        var tmp := SafeValue(f, ftrOvr, ftrNew);
        if ftrOvr != tmp {
          ovr := Override(ovr.val - ftrMask, ovr.mask - ftrMask);
        } else if ftrNew != tmp {
          ftrNew := tmp;
        }
      } else if ftrMask * ovr.val == ftrMask {
        ovr := ovr.(val := ovr.val - ftrMask);
      }
    }

    /** The boot CPU. Bits no field covers are zero in the system value and stay strict. */
    method InitCpuFtrReg(boot: Word)
      requires ValidTable(bits)
      modifies this
      ensures sysVal == InitSys(bits, |bits|, old(ovr), boot)
      ensures ovr == StripAll(bits, |bits|, old(ovr), boot)
      ensures strictMask == StrictMask(bits, |bits|) && userMask == UserMask(bits, |bits|)
      ensures userVal == UserVal(bits, |bits|, old(userVal))
    {
      hide Value;
      hide Range;
      hide SetValue;
      hide Strip;
      hide BootValue;
      hide Agree;
      var val, valid: Word := {}, {};
      strictMask, userMask := Range(0, 64), {};
      for i := 0 to |bits|
        invariant val == InitSys(bits, i, old(ovr), boot) && valid == Covered(bits, i)
        invariant ovr == StripAll(bits, i, old(ovr), boot)
        invariant strictMask == StrictMask(bits, i) && userMask == UserMask(bits, i)
        invariant userVal == UserVal(bits, i, old(userVal))
      {
        var f := bits[i];
        StripAllLater(bits, i, old(ovr), boot, i);
        SameBootValue(f, old(ovr), ovr, boot);
        var ftrNew := ApplyOverride(f, boot);
        val := SetValue(f, val, ftrNew);
        valid := valid + f.Mask();
        if !f.strict { strictMask := strictMask - f.Mask(); }
        if f.visible {
          userMask := userMask + f.Mask();
        } else {
          userVal := SetValue(f, userVal, f.safeVal);
        }
      }
      InitCovered(bits, |bits|, old(ovr), boot);
      sysVal := val * valid;
    }

    /** A further CPU: fields that differ take the safe value. */
    method UpdateCpuFtrReg(cpu: Word)
      modifies this`sysVal
      ensures sysVal == UpdateSys(bits, |bits|, old(sysVal), cpu)
    {
      hide Value;
      hide SafeValue;
      hide SetValue;
      for i := 0 to |bits|
        invariant sysVal == UpdateSys(bits, i, old(sysVal), cpu)
      {
        var f := bits[i];
        var ftrCur, ftrNew := Value(f, sysVal), Value(f, cpu);
        if ftrCur == ftrNew { continue; }
        ftrNew := SafeValue(f, ftrNew, ftrCur);
        sysVal := SetValue(f, sysVal, ftrNew);
      }
    }
  }
}
