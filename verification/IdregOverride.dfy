/** Command-line overrides of CPU ID registers: each option sets one field of one register's
    override, or is filtered out; some filters touch the overrides of other registers on the way. */
module IdregOverride {
  import opened Wrappers
  import opened Words
  import opened CpuFeatures

  /** A field lowered by a filter in another register: the value put there and its place. */
  datatype Cap = Cap(shift: nat, value: nat)

  datatype Filter =
    | NoFilter
    | Test(pass: nat -> bool)                                   // looks at the value only
    | ZeroClears(target: nat)                                   // 0 forces a whole register to zero
    | ZeroLowers(target: nat, present: bool, caps: seq<Cap>)    // only 0 passes, and lowers fields

  datatype OptField = OptField(name: string, shift: nat, width: nat, filter: Filter) {
    /** A width of zero in the table means four. */
    function Mask(): Word {
      Range(shift, if width == 0 then 4 else width)
    }
  }

  lemma MaskMeans(f: OptField, b: nat)
    ensures b in f.Mask() <==> f.shift <= b < f.shift + (if f.width == 0 then 4 else f.width)
  {
  }

  datatype Desc = Desc(name: string, target: nat, fields: seq<OptField>)

  /** The overrides of all registers. */
  type Overrides = seq<Override>

  // --------------------------------------------------------------------------
  // Reading one option

  predicate IsDigit(c: char) { '0' <= c <= '9' }
  predicate IsXDigit(c: char) { IsDigit(c) || 'a' <= c <= 'f' || 'A' <= c <= 'F' }
  predicate IsSpace(c: char) { c == ' ' || 9 as char <= c <= 13 as char }

  function DigitValue(c: char): nat
    requires IsXDigit(c)
  {
    if IsDigit(c) then c as int - '0' as int
    else if 'a' <= c then c as int - 'a' as int + 10
    else c as int - 'A' as int + 10
  }

  /** A single hex digit, with or without 0x, up to the end of the word. */
  function ParseHexDigit(p: string): Option<nat> {
    var q := if |p| >= 2 && p[0] == '0' && (p[1] == 'x' || p[1] == 'X') then p[2..] else p;
    if |q| >= 1 && IsXDigit(q[0]) && (|q| == 1 || IsSpace(q[1])) then Some(DigitValue(q[0])) else None
  }

  function FindField(option: string, reg: string, field: string): Option<nat> {
    var opt := reg + "." + field + "=";
    if opt <= option then ParseHexDigit(option[|opt|..]) else None
  }

  // --------------------------------------------------------------------------
  // Applying it

  function LowerAll(o: Override, caps: seq<Cap>): Override {
    if caps == [] then o
    else
      var o', c := LowerAll(o, caps[..|caps| - 1]), caps[|caps| - 1];
      Override(o'.val + Place(c.value, c.shift, 4), o'.mask + Range(c.shift, 4))
  }

  predicate Passes(f: Filter, v: nat) {
    match f
    case NoFilter => true
    case Test(pass) => pass(v)
    case ZeroClears(_) => true
    case ZeroLowers(_, _, _) => v == 0
  }

  /** What running the filter does to other registers' overrides. */
  function SideEffect(f: Filter, v: nat, ovs: Overrides): (r: Overrides)
    ensures |r| == |ovs|
  {
    match f
    case ZeroClears(t) => if v == 0 && t < |ovs| then ovs[t := Override({}, Range(0, 64))] else ovs
    case ZeroLowers(t, present, caps) =>
      if v == 0 && present && t < |ovs| then ovs[t := LowerAll(ovs[t], caps)] else ovs
    case _ => ovs
  }

  function SetField(o: Override, f: OptField, v: nat): Override {
    Override((o.val - f.Mask()) + Place(v, f.shift, if f.width == 0 then 4 else f.width), o.mask + f.Mask())
  }

  function FilterOut(o: Override, f: OptField): Override {
    Override(o.val + f.Mask(), o.mask - f.Mask())
  }

  /** One field of one register against the option: the new overrides, and whether it is settled. */
  function TryField(d: Desc, f: OptField, ovs: Overrides, option: string): (r: (Overrides, bool))
    ensures |r.0| == |ovs|
  {
    var v := FindField(option, d.name, f.name);
    if v.None? || d.target >= |ovs| then (ovs, false)
    else
      var ovs' := SideEffect(f.filter, v.value, ovs);
      if !Passes(f.filter, v.value) then (ovs'[d.target := FilterOut(ovs'[d.target], f)], false)
      else (ovs'[d.target := SetField(ovs'[d.target], f, v.value)], true)
  }

  /** The rest of the table from field k of register i on. */
  function Match(descs: seq<Desc>, i: nat, k: nat, ovs: Overrides, option: string): (r: Overrides)
    ensures |r| == |ovs|
    decreases |descs| - i, if i < |descs| then |descs[i].fields| - k else 0
  {
    if i >= |descs| then ovs
    else if k >= |descs[i].fields| then Match(descs, i + 1, 0, ovs, option)
    else
      var (ovs', done) := TryField(descs[i], descs[i].fields[k], ovs, option);
      if done then ovs' else Match(descs, i, k + 1, ovs', option)
  }

  /** All options of a command line, in order, from a clean start. */
  function Parsed(descs: seq<Desc>, registers: nat, options: seq<string>): (r: Overrides)
    ensures |r| == registers
    decreases |options|
  {
    if options == [] then seq(registers, _ => NO_OVERRIDE)
    else Match(descs, 0, 0, Parsed(descs, registers, options[..|options| - 1]), options[|options| - 1])
  }

  // --------------------------------------------------------------------------
  // What an option says and what filters do

  const LOWER := "0123456789abcdef"
  const UPPER := "0123456789ABCDEF"

  /** An option is written as register, field, an optional 0x and one hex digit of either case, and ends
      there or at a blank; it is read as that digit. */
  lemma FindPrinted(reg: string, field: string, prefix: string, v: nat, upper: bool, rest: string)
    requires v < 16 && prefix in {"", "0x", "0X"} && (rest == "" || IsSpace(rest[0]))
    ensures var digit := [if upper then UPPER[v] else LOWER[v]];
            FindField(reg + "." + field + "=" + prefix + digit + rest, reg, field) == Some(v)
  {
    var c := if upper then UPPER[v] else LOWER[v];
    var opt, p := reg + "." + field + "=", prefix + [c] + rest;
    var option := reg + "." + field + "=" + prefix + [c] + rest;
    assert option == opt + p;
    assert option[|opt|..] == p;
    DigitSpelled(v, upper);
    if prefix != "" { assert p[2..] == [c] + rest; } else { assert p == [c] + rest; }
  }

  lemma DigitSpelled(v: nat, upper: bool)
    requires v < 16
    ensures var c := if upper then UPPER[v] else LOWER[v];
            IsXDigit(c) && DigitValue(c) == v && !IsSpace(c) && c != 'x' && c != 'X'
  {
  }

  /** Nothing else is read: an option found names the field and shows a digit. */
  lemma FindMeans(option: string, reg: string, field: string)
    ensures var opt := reg + "." + field + "=";
            FindField(option, reg, field).Some? ==>
              && opt <= option && FindField(option, reg, field).value < 16
              && exists k: nat :: |opt| <= k < |option| && IsXDigit(option[k])
                                  && (k == |opt| || (k == |opt| + 2 && option[|opt|..k] in {"0x", "0X"}))
                                  && DigitValue(option[k]) == FindField(option, reg, field).value
                                  && (k + 1 == |option| || IsSpace(option[k + 1]))
  {
    var opt := reg + "." + field + "=";
    if FindField(option, reg, field).Some? {
      var p := option[|opt|..];
      var k := if |p| >= 2 && p[0] == '0' && (p[1] == 'x' || p[1] == 'X') then |opt| + 2 else |opt|;
      assert IsXDigit(option[k]);
      if k == |opt| + 2 { assert option[|opt|..k] == [option[|opt|], option[|opt| + 1]]; }
    }
  }

  /** A lowered register: the fields' bits join the mask, the values' bits the value, and nothing
      else does. */
  lemma {:induction false} LowerMeans(o: Override, caps: seq<Cap>, b: nat)
    ensures b in LowerAll(o, caps).mask <==>
              b in o.mask || exists c :: 0 <= c < |caps| && caps[c].shift <= b < caps[c].shift + 4
    ensures b in LowerAll(o, caps).val <==>
              b in o.val || exists c :: 0 <= c < |caps| && b in Place(caps[c].value, caps[c].shift, 4)
    decreases |caps|
  {
    hide Place;
    hide Range;
    if caps != [] {
      var n := |caps| - 1;
      LowerMeans(o, caps[..n], b);
      assert forall c :: 0 <= c < n ==> caps[..n][c] == caps[c];
    }
  }

  /** A field that carried no override and is lowered by one filter shows the filter's value. */
  lemma LoweredReads(o: Override, cap: Cap)
    requires Untouched(Range(cap.shift, 4), o)
    ensures var o' := LowerAll(o, [cap]);
            IsSet(Range(cap.shift, 4), o') && Digits(o'.val, cap.shift, 4) == cap.value % 16
  {
    hide Place;
    hide Range;
    hide Digits;
    var o' := LowerAll(o, [cap]);
    forall b: nat
      ensures b in o'.mask <==> b in o.mask || cap.shift <= b < cap.shift + 4
      ensures b in o'.val <==> b in o.val || b in Place(cap.value, cap.shift, 4)
    {
      LowerMeans(o, [cap], b);
      assert [cap][0] == cap;
    }
    PlaceReads(cap.value, cap.shift, 4);
    DigitsLocal(o'.val, Place(cap.value, cap.shift, 4), cap.shift, 4);
    assert Pow2(4) == 16;
  }

  /** Which values pass: all without a filter, those a test admits, all where zero clears another
      register, and only zero where it lowers one. */
  lemma PassesMean(f: Filter, v: nat)
    ensures Passes(f, v) <==> !(f.Test? && !f.pass(v)) && !(f.ZeroLowers? && v != 0)
  {
  }

  /** The value zero clears the one register, or lowers it if the feature is present; no other value and
      no other filter touches any register, and no other register is touched. */
  lemma SideEffectMeans(f: Filter, v: nat, ovs: Overrides, t: nat)
    requires t < |ovs|
    ensures var o := SideEffect(f, v, ovs)[t];
            && (f.ZeroClears? && f.target == t && v == 0 ==>
                  o.val == {} && forall b: nat :: b in o.mask <==> b < 64)
            && (f.ZeroLowers? && f.target == t && v == 0 && f.present ==> o == LowerAll(ovs[t], f.caps))
            && (v != 0 || f.NoFilter? || f.Test? || f.target != t || (f.ZeroLowers? && !f.present) ==> o == ovs[t])
  {
    hide LowerAll;
  }

  // --------------------------------------------------------------------------
  // Every field stays in one of three shapes

  /** A field of register t that every entry of the table treats as a whole or not at all. */
  ghost predicate Whole(part: Word, field: Word) {
    field <= part || field !! part
  }

  ghost predicate CapsWhole(caps: seq<Cap>, field: Word) {
    forall c :: 0 <= c < |caps| ==> Whole(Range(caps[c].shift, 4), field)
  }

  ghost predicate Compatible(descs: seq<Desc>, t: nat, field: Word) {
    && field <= Range(0, 64)
    && (forall i, k :: 0 <= i < |descs| && 0 <= k < |descs[i].fields| ==>
          var f := descs[i].fields[k];
          && (descs[i].target == t ==> Whole(f.Mask(), field))
          && (f.filter.ZeroLowers? && f.filter.target == t ==> CapsWhole(f.filter.caps, field)))
  }

  lemma SetKnown(o: Override, f: OptField, v: nat, field: Word)
    requires Known(field, o) && Whole(f.Mask(), field)
    ensures Known(field, SetField(o, f, v))
  {
    PlaceInside(v, f.shift, if f.width == 0 then 4 else f.width);
  }

  lemma FilterKnown(o: Override, f: OptField, field: Word)
    requires Known(field, o) && Whole(f.Mask(), field)
    ensures Known(field, FilterOut(o, f))
  {
  }

  lemma {:induction false} LowerKnown(o: Override, caps: seq<Cap>, field: Word)
    requires Known(field, o) && CapsWhole(caps, field)
    ensures Known(field, LowerAll(o, caps))
    decreases |caps|
  {
    if caps != [] {
      var n := |caps| - 1;
      LowerKnown(o, caps[..n], field);
      PlaceInside(caps[n].value, caps[n].shift, 4);
      assert Whole(Range(caps[n].shift, 4), field);
    }
  }

  lemma SideEffectKnown(f: Filter, v: nat, ovs: Overrides, t: nat, field: Word)
    requires t < |ovs| && Known(field, ovs[t]) && field <= Range(0, 64)
    requires f.ZeroLowers? && f.target == t ==> CapsWhole(f.caps, field)
    ensures Known(field, SideEffect(f, v, ovs)[t])
  {
    hide Range;
    if f.ZeroLowers? && f.target == t { LowerKnown(ovs[t], f.caps, field); }
  }

  lemma {:induction false} MatchKnown(descs: seq<Desc>, i: nat, k: nat, ovs: Overrides, option: string, t: nat,
                                      field: Word)
    requires t < |ovs| && Known(field, ovs[t]) && Compatible(descs, t, field)
    ensures Known(field, Match(descs, i, k, ovs, option)[t])
    decreases |descs| - i, if i < |descs| then |descs[i].fields| - k else 0
  {
    hide Known;
    hide FindField;
    hide SetField;
    hide FilterOut;
    hide SideEffect;
    hide Whole;
    if i < |descs| {
      if k >= |descs[i].fields| {
        MatchKnown(descs, i + 1, 0, ovs, option, t, field);
      } else {
        var d, f := descs[i], descs[i].fields[k];
        var v := FindField(option, d.name, f.name);
        if v.Some? && d.target < |ovs| {
          SideEffectKnown(f.filter, v.value, ovs, t, field);
          if d.target == t {
            var o := SideEffect(f.filter, v.value, ovs)[t];
            SetKnown(o, f, v.value, field);
            FilterKnown(o, f, field);
          }
        }
        MatchKnown(descs, i, k + 1, TryField(d, f, ovs, option).0, option, t, field);
      }
    }
  }

  /** After any options, every field is untouched, filtered or set. */
  lemma {:induction false} ParsedKnown(descs: seq<Desc>, registers: nat, options: seq<string>, t: nat, field: Word)
    requires t < registers && Compatible(descs, t, field)
    ensures Known(field, Parsed(descs, registers, options)[t])
    decreases |options|
  {
    hide Compatible;
    if options != [] {
      ParsedKnown(descs, registers, options[..|options| - 1], t, field);
      MatchKnown(descs, 0, 0, Parsed(descs, registers, options[..|options| - 1]), options[|options| - 1], t, field);
    }
  }

  /** And after the boot CPU's initialisation of register t, every field of its table is fully
      masked with a value accepted as safe, or carries no override at all. */
  lemma {:induction false} OptionsSettle(descs: seq<Desc>, registers: nat, options: seq<string>, t: nat,
                                         bits: seq<FtrBits>, boot: Word, i: nat)
    requires t < registers && ValidTable(bits) && i < |bits| && Compatible(descs, t, bits[i].Mask())
    ensures Settled(bits[i], StripAll(bits, |bits|, Parsed(descs, registers, options)[t], boot), boot)
  {
    hide Compatible;
    hide Known;
    hide Settled;
    ParsedKnown(descs, registers, options, t, bits[i].Mask());
    OverridesSettle(bits, |bits|, Parsed(descs, registers, options)[t], boot, i);
  }

  /** An option that passes its filter leaves its digit in the field. */
  lemma SetReadsBack(o: Override, f: OptField, v: nat)
    ensures var w := if f.width == 0 then 4 else f.width;
            Digits(SetField(o, f, v).val, f.shift, w) == v % Pow2(w) && IsSet(f.Mask(), SetField(o, f, v))
  {
    var w := if f.width == 0 then 4 else f.width;
    PlaceReads(v, f.shift, w);
    PlaceInside(v, f.shift, w);
    DigitsLocal(SetField(o, f, v).val, Place(v, f.shift, w), f.shift, w);
  }

  /** Entry k of register i is not the one the option names. */
  predicate Silent(descs: seq<Desc>, option: string, i: nat, k: nat) {
    i < |descs| && k < |descs[i].fields| ==> FindField(option, descs[i].name, descs[i].fields[k].name).None?
  }

  /** Field b of register a is the first entry of the table the option names. */
  ghost predicate NamesFirst(descs: seq<Desc>, option: string, a: nat, b: nat) {
    && a < |descs| && b < |descs[a].fields|
    && FindField(option, descs[a].name, descs[a].fields[b].name).Some?
    && forall i: nat, k: nat :: i < a || (i == a && k < b) ==> Silent(descs, option, i, k)
  }

  /** And nothing after it is named too. */
  ghost predicate NoneAfter(descs: seq<Desc>, option: string, a: nat, b: nat) {
    forall i: nat, k: nat :: i > a || (i == a && k > b) ==> Silent(descs, option, i, k)
  }

  /** What an option does: the first field it names is set to its digit if the filter passes it,
      whatever was there before and whatever else it may name further on; if the filter refuses it,
      and nothing else is named, the field is marked as filtered. Beside that field nothing changes
      but what the filter does. */
  lemma {:induction false} OptionTakes(descs: seq<Desc>, i: nat, k: nat, ovs: Overrides, option: string, a: nat, b: nat)
    requires NamesFirst(descs, option, a, b) && descs[a].target < |ovs|
    requires i < a || (i == a && k <= b)
    ensures var d, f := descs[a], descs[a].fields[b];
            var v := FindField(option, d.name, f.name).value;
            var w := if f.width == 0 then 4 else f.width;
            var after := Match(descs, i, k, ovs, option);
            var o := after[d.target];
            && (Passes(f.filter, v) ==> IsSet(f.Mask(), o) && Digits(o.val, f.shift, w) == v % Pow2(w))
            && (!Passes(f.filter, v) && NoneAfter(descs, option, a, b) ==> Filtered(f.Mask(), o))
            && (Passes(f.filter, v) || NoneAfter(descs, option, a, b) ==>
                  && (forall t :: 0 <= t < |ovs| && t != d.target ==> after[t] == SideEffect(f.filter, v, ovs)[t])
                  && Beside(f.Mask(), SideEffect(f.filter, v, ovs)[d.target], o))
    decreases |descs| - i, if i < |descs| then |descs[i].fields| - k else 0
  {
    hide FindField;
    hide SetField;
    hide FilterOut;
    hide SideEffect;
    hide Passes;
    hide Digits;
    hide Beside;
    if k >= |descs[i].fields| {
      OptionTakes(descs, i + 1, 0, ovs, option, a, b);
    } else if i == a && k == b {
      var d, f := descs[a], descs[a].fields[b];
      var v := FindField(option, d.name, f.name).value;
      var o := SideEffect(f.filter, v, ovs)[d.target];
      SetReadsBack(o, f, v);
      FilterMarks(o, f);
      FieldOnly(o, f, v);
      if NoneAfter(descs, option, a, b) { Unnamed(descs, i, k + 1, TryField(d, f, ovs, option).0, option, a, b); }
    } else {
      assert Silent(descs, option, i, k);
      OptionTakes(descs, i, k + 1, ovs, option, a, b);
    }
  }

  /** Two overrides that agree outside a field. */
  ghost predicate Beside(field: Word, o: Override, o': Override) {
    forall b: nat :: b !in field ==> (b in o.val <==> b in o'.val) && (b in o.mask <==> b in o'.mask)
  }

  lemma FieldOnly(o: Override, f: OptField, v: nat)
    ensures Beside(f.Mask(), o, SetField(o, f, v)) && Beside(f.Mask(), o, FilterOut(o, f))
  {
    hide Range;
    hide Place;
    PlaceInside(v, f.shift, if f.width == 0 then 4 else f.width);
  }

  lemma FilterMarks(o: Override, f: OptField)
    ensures Filtered(f.Mask(), FilterOut(o, f))
  {
    hide Range;
  }

  /** Past the entry it names, an option does nothing. */
  lemma {:induction false} Unnamed(descs: seq<Desc>, i: nat, k: nat, ovs: Overrides, option: string, a: nat, b: nat)
    requires NoneAfter(descs, option, a, b) && (i > a || (i == a && k > b))
    ensures Match(descs, i, k, ovs, option) == ovs
    decreases |descs| - i, if i < |descs| then |descs[i].fields| - k else 0
  {
    hide FindField;
    if i < |descs| {
      if k >= |descs[i].fields| {
        Unnamed(descs, i + 1, 0, ovs, option, a, b);
      } else {
        assert Silent(descs, option, i, k);
        Unnamed(descs, i, k + 1, ovs, option, a, b);
      }
    }
  }

  // --------------------------------------------------------------------------
  // The kernel's loop

  class Table {
    const descs: seq<Desc>
    var ovs: Overrides

    /** init_feature_override: everything cleared. */
    constructor (table: seq<Desc>, registers: nat)
      ensures descs == table && ovs == Parsed(descs, registers, [])
    {
      descs, ovs := table, seq(registers, _ => NO_OVERRIDE);
    }

    method RunFilter(f: Filter, v: nat) returns (pass: bool)
      modifies this`ovs
      ensures pass == Passes(f, v) && ovs == SideEffect(f, v, old(ovs))
    {
      match f {
        case NoFilter => return true;
        case Test(p) => return p(v);
        case ZeroClears(t) =>
          if v == 0 && t < |ovs| { ovs := ovs[t := Override({}, Range(0, 64))]; }
          return true;
        case ZeroLowers(t, present, caps) =>
          if v != 0 { return false; }
          if present && t < |ovs| {
            var o := ovs[t];
            assert caps[..|caps|] == caps;
            for c := 0 to |caps|
              invariant o == LowerAll(ovs[t], caps[..c])
            {
              assert caps[..c + 1][..c] == caps[..c];
              o := Override(o.val + Place(caps[c].value, caps[c].shift, 4), o.mask + Range(caps[c].shift, 4));
            }
            ovs := ovs[t := o];
          }
          return true;
      }
    }

    /** Matches one option against the table. */
    method MatchOptions(option: string)
      requires forall i :: 0 <= i < |descs| ==> descs[i].target < |ovs|
      modifies this`ovs
      ensures ovs == Match(descs, 0, 0, old(ovs), option)
    {
      hide FindField;
      hide SideEffect;
      hide Passes;
      hide Range;
      hide Place;
      var i := 0;
      while i < |descs|
        invariant 0 <= i <= |descs| && |ovs| == |old(ovs)|
        invariant Match(descs, i, 0, ovs, option) == Match(descs, 0, 0, old(ovs), option)
      {
        var d := descs[i];
        var k := 0;
        while k < |d.fields|
          invariant 0 <= k <= |d.fields| && |ovs| == |old(ovs)|
          invariant Match(descs, i, k, ovs, option) == Match(descs, 0, 0, old(ovs), option)
        {
          var f := d.fields[k];
          var v := FindField(option, d.name, f.name);
          if v.None? {
            k := k + 1;
            continue;
          }
          var pass := RunFilter(f.filter, v.value);
          var o := ovs[d.target];
          if !pass {
            o := Override(o.val + f.Mask(), o.mask - f.Mask());
            ovs := ovs[d.target := o];
            k := k + 1;
            continue;
          }
          o := o.(val := o.val - f.Mask());
          o := o.(val := o.val + Place(v.value, f.shift, if f.width == 0 then 4 else f.width));
          o := o.(mask := o.mask + f.Mask());
          ovs := ovs[d.target := o];
          return;
        }
        i := i + 1;
      }
    }
  }
}
