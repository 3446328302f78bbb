/** What the bitwise CRC-32 computes: the remainder of the message, as a polynomial over the two-element
    field, by the generator of CRC-32. A polynomial is the set of the exponents of its terms, so
    adding is exclusive or and multiplying by x moves every exponent up by one. */
module CrcPoly {
  import opened Bytes
  import opened Words
  import opened Crc32

  type Poly = Word

  const GENERATOR: Poly := {32, 26, 23, 22, 16, 12, 11, 10, 8, 7, 5, 4, 2, 1, 0}

  function UpBy(p: Poly, n: nat): Poly {
    set e | e in p :: e + n
  }

  /** Long division by the generator: the remainder of a polynomial of degree below 32 + n. */
  function Remainder(p: Poly, n: nat): Poly
    decreases n
  {
    if n == 0 then p
    else Remainder(if 31 + n in p then Xor(p, UpBy(GENERATOR, n - 1)) else p, n - 1)
  }

  /** The message, first byte first and in each byte the low bit first, highest exponent first, with 32
      zero bits after it. */
  function MessageBits(s: seq<Byte>): Poly {
    set k: nat, i: nat | k < |s| && i < 8 && (s[k] / Pow2(i)) % 2 == 1 :: 8 * (|s| - k) + 31 - i
  }

  /** And with its first 32 bits complemented. */
  function Message(s: seq<Byte>): Poly {
    Xor(UpBy(Range(0, 32), 8 * |s|), MessageBits(s))
  }

  /** The state of the loop holds its polynomial with the highest exponent in the lowest bit. */
  function Reflect(c: Word): Poly {
    set b | b in c && b < 32 :: 31 - b
  }

  lemma ReflectBit(c: Word, e: nat)
    ensures e in Reflect(c) <==> e < 32 && 31 - e in c
  {
    if e < 32 && 31 - e in c { assert 31 - (31 - e) == e; }
  }

  lemma UpBit(p: Poly, n: nat, e: nat)
    ensures e in UpBy(p, n) <==> e >= n && e - n in p
  {
    if e >= n && e - n in p { assert (e - n) + n == e; }
  }

  lemma ShiftUpBit(p: Poly, e: nat)
    ensures e in ShiftUp(p) <==> e >= 1 && e - 1 in p
  {
    if e >= 1 && e - 1 in p { assert (e - 1) + 1 == e; }
  }

  // --------------------------------------------------------------------------
  // Division

  /** The multiple of the generator by the polynomial with the exponents of q below n. */
  function Times(q: Poly, n: nat): Poly {
    if n == 0 then {} else Xor(Times(q, n - 1), if n - 1 in q then UpBy(GENERATOR, n - 1) else {})
  }

  lemma {:induction false} TimesLocal(q: Poly, q': Poly, n: nat)
    requires forall e :: 0 <= e < n ==> (e in q <==> e in q')
    ensures Times(q, n) == Times(q', n)
  {
    hide Xor;
    if n > 0 { TimesLocal(q, q', n - 1); }
  }

  /** It is division: quotient times generator plus remainder gives the dividend, and the remainder is
      of lower degree than the generator. */
  lemma {:induction false} Division(p: Poly, n: nat) returns (q: Poly)
    requires forall e :: e in p ==> e < 32 + n
    ensures p == Xor(Times(q, n), Remainder(p, n))
    ensures forall e :: e in Remainder(p, n) ==> e < 32
    decreases n
  {
    if n == 0 {
      q := {};
      XorMoves(p, {}, {});
    } else {
      var g := UpBy(GENERATOR, n - 1);
      var top := 31 + n in p;
      var p' := if top then Xor(p, g) else p;
      forall e | e in p' ensures e < 31 + n {
        UpBit(GENERATOR, n - 1, e);
        UpBit(GENERATOR, n - 1, 31 + n);
      }
      var q' := Division(p', n - 1);
      q := if top then (q' - {n - 1}) + {n - 1} else q' - {n - 1};
      TimesLocal(q, q', n - 1);
      TimesStep(q, n);
      hide Times;
      hide Remainder;
      hide Xor;
      hide UpBy;
      Regroup(p, g, Times(q', n - 1), Remainder(p', n - 1));
    }
  }

  lemma Regroup(p: Poly, g: Poly, t: Poly, r: Poly)
    ensures Xor(p, g) == Xor(t, r) ==> p == Xor(Xor(t, g), r)
    ensures Xor(Xor(t, {}), r) == Xor(t, r)
  {
    XorMoves(t, r, g);
    XorSelf(p, g);
    XorNothing(t);
  }

  lemma TimesStep(q: Poly, n: nat)
    requires n > 0
    ensures Times(q, n) == Xor(Times(q, n - 1), if n - 1 in q then UpBy(GENERATOR, n - 1) else {})
  {
  }

  // --------------------------------------------------------------------------
  // The polynomial of the loop

  function Bit(v: nat, at: nat): Word {
    if v % 2 == 1 then {at} else {}
  }

  lemma Nibble(v: nat, lo: nat, width: nat)
    requires width >= 4
    ensures var low := Bit(v, lo) + Bit(v / 2, lo + 1) + Bit(v / 4, lo + 2) + Bit(v / 8, lo + 3);
            Place(v, lo, width) == low + Place(v / 16, lo + 4, width - 4)
  {
    assert v / 2 / 2 == v / 4 && v / 4 / 2 == v / 8 && v / 8 / 2 == v / 16;
    assert Place(v, lo, width) == Bit(v, lo) + Place(v / 2, lo + 1, width - 1);
    assert Place(v / 2, lo + 1, width - 1) == Bit(v / 2, lo + 1) + Place(v / 4, lo + 2, width - 2);
    assert Place(v / 4, lo + 2, width - 2) == Bit(v / 4, lo + 2) + Place(v / 8, lo + 3, width - 3);
    assert Place(v / 8, lo + 3, width - 3) == Bit(v / 8, lo + 3) + Place(v / 16, lo + 4, width - 4);
  }

  lemma PolyFrom28()
    ensures Place(0xe, 28, 4) == {31, 30, 29}
  {
    hide Place;
    PlaceNone(0, 32);
    Nibble(0xe, 28, 4);
  }

  lemma PolyFrom24()
    ensures Place(0xed, 24, 8) == {31, 30, 29, 27, 26, 24}
  {
    hide Place;
    PolyFrom28();
    Nibble(0xed, 24, 8);
  }

  lemma PolyFrom20()
    ensures Place(0xedb, 20, 12) == {31, 30, 29, 27, 26, 24, 23, 21, 20}
  {
    hide Place;
    PolyFrom24();
    Nibble(0xedb, 20, 12);
  }

  lemma PolyFrom16()
    ensures Place(0xedb8, 16, 16) == {31, 30, 29, 27, 26, 24, 23, 21, 20, 19}
  {
    hide Place;
    PolyFrom20();
    Nibble(0xedb8, 16, 16);
  }

  lemma PolyFrom12()
    ensures Place(0xedb88, 12, 20) == {31, 30, 29, 27, 26, 24, 23, 21, 20, 19, 15}
  {
    hide Place;
    PolyFrom16();
    Nibble(0xedb88, 12, 20);
  }

  lemma PolyFrom8()
    ensures Place(0xedb883, 8, 24) == {31, 30, 29, 27, 26, 24, 23, 21, 20, 19, 15, 9, 8}
  {
    hide Place;
    PolyFrom12();
    Nibble(0xedb883, 8, 24);
  }

  lemma PolyFrom4()
    ensures Place(0xedb8832, 4, 28) == {31, 30, 29, 27, 26, 24, 23, 21, 20, 19, 15, 9, 8, 5}
  {
    hide Place;
    PolyFrom8();
    Nibble(0xedb8832, 4, 28);
  }

  lemma PolyFrom0()
    ensures Place(0xedb88320, 0, 32) == {31, 30, 29, 27, 26, 24, 23, 21, 20, 19, 15, 9, 8, 5}
  {
    hide Place;
    PolyFrom4();
    Nibble(0xedb88320, 0, 32);
  }

  lemma PlaceNone(v: int, lo: nat)
    ensures Place(v, lo, 0) == {}
  {
  }

  lemma PolyBit(b: nat)
    ensures b in POLY <==> b < 32 && 31 - b in GENERATOR
  {
    hide Place;
    PolyFrom0();
  }

  /** Multiplication by x, reduced. */
  function TimesX(r: Poly): Poly {
    if 31 in r then Xor(ShiftUp(r), GENERATOR) else ShiftUp(r)
  }

  lemma StepIsTimesX(c: Word)
    requires IsState(c)
    ensures Reflect(BitStep(c)) == TimesX(Reflect(c))
  {
    hide Place;
    hide Range;
    forall e: nat ensures e in Reflect(BitStep(c)) <==> e in TimesX(Reflect(c)) {
      ReflectBit(BitStep(c), e);
      ReflectBit(c, 31);
      ShiftUpBit(Reflect(c), e);
      if 1 <= e { ReflectBit(c, e - 1); }
      if e < 32 {
        ShiftBit(c, 31 - e);
        PolyBit(31 - e);
      }
    }
  }

  // --------------------------------------------------------------------------
  // The loop against the division

  /** Multiplying the dividend by x and dividing one step more multiplies the remainder by x. */
  lemma {:induction false} RemainderUp(p: Poly, n: nat)
    ensures Remainder(ShiftUp(p), n + 1) == TimesX(Remainder(p, n))
    decreases n
  {
    hide Xor;
    hide ShiftUp;
    ShiftUpBit(p, 32 + n);
    if n == 0 {
      UpNone(GENERATOR);
      assert Remainder(ShiftUp(p), 1) == Remainder(TimesX(p), 0);
    } else {
      var g := UpBy(GENERATOR, n - 1);
      ShiftUpXor(p, g);
      UpMore(GENERATOR, n - 1);
      RemainderUp(if 31 + n in p then Xor(p, g) else p, n - 1);
    }
  }

  lemma UpNone(p: Poly)
    ensures UpBy(p, 0) == p
  {
    forall e: nat ensures e in UpBy(p, 0) <==> e in p { UpBit(p, 0, e); }
  }

  lemma UpMore(p: Poly, n: nat)
    ensures UpBy(p, n + 1) == ShiftUp(UpBy(p, n))
  {
    forall e: nat ensures e in UpBy(p, n + 1) <==> e in ShiftUp(UpBy(p, n)) {
      UpBit(p, n + 1, e);
      ShiftUpBit(UpBy(p, n), e);
      if e >= 1 { UpBit(p, n, e - 1); }
    }
  }

  lemma ShiftUpXor(p: Poly, q: Poly)
    ensures ShiftUp(Xor(p, q)) == Xor(ShiftUp(p), ShiftUp(q))
  {
    forall e: nat ensures e in ShiftUp(Xor(p, q)) <==> e in Xor(ShiftUp(p), ShiftUp(q)) {
      ShiftUpBit(Xor(p, q), e);
      ShiftUpBit(p, e);
      ShiftUpBit(q, e);
    }
  }

  /** What is added below the generator's degree goes straight into the remainder. */
  lemma {:induction false} RemainderPlus(p: Poly, q: Poly, n: nat)
    requires forall e :: e in q ==> e < 32
    ensures Remainder(Xor(p, q), n) == Xor(Remainder(p, n), q)
    decreases n
  {
    if n > 0 {
      var g := UpBy(GENERATOR, n - 1);
      assert 31 + n in Xor(p, q) <==> 31 + n in p;
      XorMoves(p, q, g);
      hide Xor;
      RemainderPlus(if 31 + n in p then Xor(p, g) else p, q, n - 1);
    }
  }

  function TimesXs(r: Poly, k: nat): Poly {
    if k == 0 then r else TimesX(TimesXs(r, k - 1))
  }

  lemma {:induction false} RemainderUps(p: Poly, n: nat, k: nat)
    ensures Remainder(UpBy(p, k), n + k) == TimesXs(Remainder(p, n), k)
    decreases k
  {
    hide TimesX;
    hide Remainder;
    if k == 0 {
      UpNone(p);
    } else {
      RemainderUps(p, n, k - 1);
      UpMore(p, k - 1);
      RemainderUp(UpBy(p, k - 1), n + k - 1);
    }
  }

  lemma {:induction false} BitsAreTimesXs(c: Word, k: nat)
    requires IsState(c)
    ensures IsState(Bits(c, k)) && Reflect(Bits(c, k)) == TimesXs(Reflect(c), k)
  {
    hide TimesX;
    hide BitStep;
    hide Range;
    if k > 0 {
      BitsAreTimesXs(c, k - 1);
      StepIsTimesX(Bits(c, k - 1));
      BitBijection(Bits(c, k - 1));
    }
  }

  lemma ReflectXor(c: Word, d: Word)
    ensures Reflect(Xor(c, d)) == Xor(Reflect(c), Reflect(d))
  {
    forall e: nat ensures e in Reflect(Xor(c, d)) <==> e in Xor(Reflect(c), Reflect(d)) {
      ReflectBit(Xor(c, d), e);
      ReflectBit(c, e);
      ReflectBit(d, e);
    }
  }

  /** A byte where the loop takes it in. */
  function Lift(b: Byte): Poly {
    Reflect(Place(b, 0, 8))
  }

  lemma LiftBit(b: Byte, e: nat)
    ensures e in Lift(b) <==> e < 32 && 31 - e < 8 && (b / Pow2(31 - e)) % 2 == 1
  {
    hide Place;
    hide Range;
    hide Pow2;
    ReflectBit(Place(b, 0, 8), e);
    PlaceInside(b, 0, 8);
    if e < 32 && 31 - e < 8 { PlaceBit(b, 0, 8, 31 - e); }
  }

  lemma FeedDivides(c: Word, b: Byte, p: Poly, n: nat)
    requires IsState(c) && Reflect(c) == Remainder(p, n)
    ensures IsState(Feed(c, b)) && Reflect(Feed(c, b)) == Remainder(UpBy(Xor(p, Lift(b)), 8), n + 8)
  {
    hide Bits;
    hide Place;
    hide Range;
    hide Remainder;
    hide TimesXs;
    var x := Place(b, 0, 8);
    ByteBits(b, b);
    ReflectXor(c, x);
    forall e | e in Lift(b) ensures e < 32 { LiftBit(b, e); }
    RemainderPlus(p, Lift(b), n);
    BitsAreTimesXs(Xor(c, x), 8);
    RemainderUps(Xor(p, Lift(b)), n, 8);
  }

  /** Bit i of byte k is a term of the message. */
  predicate Term(s: seq<Byte>, k: nat, i: nat, e: nat) {
    k < |s| && i < 8 && (s[k] / Pow2(i)) % 2 == 1 && e == 8 * (|s| - k) + 31 - i
  }

  lemma MessageBit(s: seq<Byte>, e: nat)
    ensures e in MessageBits(s) <==> exists k: nat, i: nat :: Term(s, k, i, e)
  {
    hide Pow2;
    if e in MessageBits(s) {
      var k: nat, i: nat :| k < |s| && i < 8 && (s[k] / Pow2(i)) % 2 == 1 && e == 8 * (|s| - k) + 31 - i;
      assert Term(s, k, i, e);
    }
  }

  /** One more byte: what was there moves up, and the byte comes in below it. */
  lemma MessageGrows(s: seq<Byte>, b: Byte)
    ensures MessageBits(s + [b]) == UpBy(Xor(MessageBits(s), Lift(b)), 8)
  {
    hide MessageBits;
    hide Lift;
    hide Pow2;
    var t := s + [b];
    forall e: nat ensures e in MessageBits(t) <==> e in UpBy(Xor(MessageBits(s), Lift(b)), 8) {
      MessageBit(t, e);
      UpBit(Xor(MessageBits(s), Lift(b)), 8, e);
      if e >= 8 {
        MessageBit(s, e - 8);
        LiftBit(b, e - 8);
        GrownTerm(s, b, t, e, e - 8);
      } else if k: nat, i: nat :| Term(t, k, i, e) {
        assert false;
      }
    }
  }

  lemma GrownTerm(s: seq<Byte>, b: Byte, t: seq<Byte>, e: nat, d: nat)
    requires t == s + [b] && e == d + 8
    ensures (exists k: nat, i: nat :: Term(t, k, i, e)) <==>
              || (exists k: nat, i: nat :: Term(s, k, i, d))
              || (d < 32 && 31 - d < 8 && (b / Pow2(31 - d)) % 2 == 1)
    ensures (exists k: nat, i: nat :: Term(s, k, i, d)) ==> d >= 32
  {
    hide Pow2;
    if k: nat, i: nat :| Term(t, k, i, e) {
      if k < |s| { assert Term(s, k, i, d); }
    }
    if k: nat, i: nat :| Term(s, k, i, d) {
      assert Term(t, k, i, e);
    }
    if d < 32 && 31 - d < 8 && (b / Pow2(31 - d)) % 2 == 1 {
      assert Term(t, |s|, 31 - d, e);
    }
  }

  lemma StartGrows(n: nat, p: Poly)
    ensures UpBy(UpBy(p, n), 8) == UpBy(p, n + 8)
  {
    forall e: nat ensures e in UpBy(UpBy(p, n), 8) <==> e in UpBy(p, n + 8) {
      UpBit(UpBy(p, n), 8, e);
      UpBit(p, n + 8, e);
      if e >= 8 { UpBit(p, n, e - 8); }
    }
  }

  lemma UpXor(p: Poly, q: Poly, n: nat)
    ensures UpBy(Xor(p, q), n) == Xor(UpBy(p, n), UpBy(q, n))
  {
    forall e: nat ensures e in UpBy(Xor(p, q), n) <==> e in Xor(UpBy(p, n), UpBy(q, n)) {
      UpBit(Xor(p, q), n, e);
      UpBit(p, n, e);
      UpBit(q, n, e);
    }
  }

  lemma WholeGrows(s: seq<Byte>, b: Byte)
    ensures Message(s + [b]) == UpBy(Xor(Message(s), Lift(b)), 8)
  {
    hide MessageBits;
    hide Lift;
    hide Range;
    hide Xor;
    hide UpBy;
    var ones, bits := UpBy(Range(0, 32), 8 * |s|), MessageBits(s);
    MessageGrows(s, b);
    StartGrows(8 * |s|, Range(0, 32));
    XorMoves(ones, bits, Lift(b));
    UpXor(ones, Xor(bits, Lift(b)), 8);
  }

  lemma StartState()
    ensures IsState(START) && Reflect(START) == Message([]) && MessageBits([]) == {}
  {
    hide Range;
    UpNone(Range(0, 32));
    XorNothing(Range(0, 32));
    forall e: nat ensures e in Reflect(START) <==> e in Range(0, 32) { ReflectBit(START, e); }
  }

  /** After any bytes, the loop's state is the remainder of the message. */
  lemma {:induction false} RunIsRemainder(s: seq<Byte>)
    ensures IsState(Run(s)) && Reflect(Run(s)) == Remainder(Message(s), 8 * |s|)
  {
    hide Feed;
    hide Message;
    hide Reflect;
    hide Range;
    if s == [] {
      StartState();
    } else {
      var n := |s| - 1;
      RunIsRemainder(s[..n]);
      FeedDivides(Run(s[..n]), s[n], Message(s[..n]), 8 * n);
      WholeGrows(s[..n], s[n]);
      assert s[..n] + [s[n]] == s;
    }
  }

  /** So binary digit i of the CRC is the complement of the remainder's coefficient of x to the 31 - i. */
  lemma CrcIsRemainder(s: seq<Byte>, i: nat)
    requires i < 32
    ensures (Crc(s) / Pow2(i)) % 2 == 1 <==> 31 - i !in Remainder(Message(s), 8 * |s|)
  {
    hide Run;
    hide Digits;
    hide Pow2;
    hide Remainder;
    hide Message;
    hide Range;
    RunIsRemainder(s);
    DigitsBit(Range(0, 32) - Run(s), 0, 32, i);
    ReflectBit(Run(s), 31 - i);
  }
}
