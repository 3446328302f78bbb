/** Sixty-four-bit registers and bit fields. A register is the set of the positions of its one
    bits, so that `&`, `|` and `& ~` are intersection, union and difference. */
module Words {
  import Arith

  type Word = set<nat>

  function Pow2(n: nat): (r: nat)
    ensures r >= 1
  {
    if n == 0 then 1 else 2 * Pow2(n - 1)
  }

  /** The bits lo, ..., lo + width - 1. */
  function Range(lo: nat, width: nat): (r: Word)
    ensures forall b: nat :: b in r <==> lo <= b < lo + width
  {
    if width == 0 then {} else Range(lo, width - 1) + {lo + width - 1}
  }

  /** The number in bits lo.. of w, read as `width` binary digits. */
  function Digits(w: Word, lo: nat, width: nat): nat
    decreases width
  {
    if width == 0 then 0 else (if lo in w then 1 else 0) + 2 * Digits(w, lo + 1, width - 1)
  }

  /** The low `width` bits of v in two's complement, placed from bit lo on. */
  function Place(v: int, lo: nat, width: nat): Word
    decreases width
  {
    if width == 0 then {} else (if v % 2 == 1 then {lo} else {}) + Place(v / 2, lo + 1, width - 1)
  }

  lemma {:induction false} DigitsBound(w: Word, lo: nat, width: nat)
    ensures Digits(w, lo, width) < Pow2(width)
    decreases width
  {
    if width > 0 { DigitsBound(w, lo + 1, width - 1); }
  }

  lemma {:induction false} PlaceInside(v: int, lo: nat, width: nat)
    ensures Place(v, lo, width) <= Range(lo, width)
    decreases width
  {
    if width > 0 {
      PlaceInside(v / 2, lo + 1, width - 1);
    }
  }

  /** Only bits inside a field matter to it. */
  lemma {:induction false} DigitsLocal(w: Word, w': Word, lo: nat, width: nat)
    requires forall b: nat :: lo <= b < lo + width ==> (b in w <==> b in w')
    ensures Digits(w, lo, width) == Digits(w', lo, width)
    decreases width
  {
    if width > 0 { DigitsLocal(w, w', lo + 1, width - 1); }
  }

  /** What is placed reads back modulo the field. */
  lemma {:induction false} PlaceReads(v: int, lo: nat, width: nat)
    ensures Digits(Place(v, lo, width), lo, width) == v % Pow2(width)
    decreases width
  {
    if width > 0 {
      PlaceReads(v / 2, lo + 1, width - 1);
      PlaceInside(v / 2, lo + 1, width - 1);
      DigitsLocal(Place(v, lo, width), Place(v / 2, lo + 1, width - 1), lo + 1, width - 1);
      HalfMod(v, Pow2(width - 1));
    }
  }

  lemma HalfMod(v: int, m: nat)
    requires m > 0
    ensures v % (2 * m) == v % 2 + 2 * ((v / 2) % m)
  {
    var q, r := (v / 2) / m, (v / 2) % m;
    assert v == 2 * (m * q + r) + v % 2;
    assert v == (2 * m) * q + (2 * r + v % 2);
    Arith.ModUnique(v, 2 * m, q, 2 * r + v % 2);
  }

  /** Equal numbers, equal bits. */
  lemma {:induction false} DigitsInjective(w: Word, w': Word, lo: nat, width: nat)
    requires Digits(w, lo, width) == Digits(w', lo, width)
    ensures forall b: nat :: lo <= b < lo + width ==> (b in w <==> b in w')
    decreases width
  {
    if width > 0 { DigitsInjective(w, w', lo + 1, width - 1); }
  }

  /** And binary digit k of the number in a field is bit lo + k. */
  lemma {:induction false} DigitsBit(w: Word, lo: nat, width: nat, k: nat)
    requires k < width
    ensures (Digits(w, lo, width) / Pow2(k)) % 2 == 1 <==> lo + k in w
    decreases width
  {
    var n, rest, low := Digits(w, lo, width), Digits(w, lo + 1, width - 1), if lo in w then 1 else 0;
    assert n == 2 * rest + low;
    hide Digits;
    Arith.ModUnique(n, 2, rest, low);
    if k > 0 {
      DigitsBit(w, lo + 1, width - 1, k - 1);
      assert Pow2(k) == 2 * Pow2(k - 1);
      hide Pow2;
      HalfDiv(n, Pow2(k - 1));
    } else {
      Arith.ModUnique(n, 1, n, 0);
    }
  }

  /** Bit lo + k of a placed number is its k-th binary digit. */
  lemma {:induction false} PlaceBit(v: int, lo: nat, width: nat, k: nat)
    requires k < width
    ensures lo + k in Place(v, lo, width) <==> (v / Pow2(k)) % 2 == 1
    decreases width
  {
    PlaceInside(v / 2, lo + 1, width - 1);
    if k > 0 {
      PlaceBit(v / 2, lo + 1, width - 1, k - 1);
      HalfDiv(v, Pow2(k - 1));
    } else {
      Arith.ModUnique(v, 1, v, 0);
    }
  }

  lemma HalfDiv(v: int, m: nat)
    requires m > 0
    ensures v / (2 * m) == (v / 2) / m
  {
    var q, r := (v / 2) / m, (v / 2) % m;
    assert v == 2 * (m * q + r) + v % 2;
    assert v == (2 * m) * q + (2 * r + v % 2);
    Arith.ModUnique(v, 2 * m, q, 2 * r + v % 2);
  }

  /** Exclusive or. */
  function Xor(a: Word, b: Word): Word {
    (a - b) + (b - a)
  }

  lemma XorSelf(a: Word, b: Word)
    ensures Xor(Xor(a, b), b) == a && Xor(a, Xor(a, b)) == b
  {
  }

  function ShiftDown(a: Word): Word {
    set b | b in a && b > 0 :: b - 1
  }

  function ShiftUp(a: Word): Word {
    set b | b in a :: b + 1
  }

  lemma Shifts(a: Word)
    ensures ShiftDown(ShiftUp(a)) == a
    ensures ShiftUp(ShiftDown(a)) == a - {0}
  {
    forall b: nat ensures b in ShiftDown(ShiftUp(a)) <==> b in a {
      if b in a { assert b + 1 in ShiftUp(a); }
    }
    forall b: nat ensures b in ShiftUp(ShiftDown(a)) <==> b in a - {0} {
      if b in a && b > 0 { assert b - 1 in ShiftDown(a); }
    }
  }

  lemma XorMoves(a: Word, b: Word, c: Word)
    ensures Xor(Xor(a, b), c) == Xor(a, Xor(b, c)) && Xor(Xor(a, b), c) == Xor(Xor(a, c), b)
  {
  }

  lemma ShiftXor(a: Word, b: Word)
    ensures ShiftDown(Xor(a, b)) == Xor(ShiftDown(a), ShiftDown(b))
  {
    forall k: nat ensures k in ShiftDown(Xor(a, b)) <==> k in Xor(ShiftDown(a), ShiftDown(b)) {
      ShiftBit(Xor(a, b), k);
      ShiftBit(a, k);
      ShiftBit(b, k);
    }
  }

  lemma ShiftBit(a: Word, k: nat)
    ensures k in ShiftDown(a) <==> k + 1 in a
  {
    if k + 1 in a { assert (k + 1) - 1 == k; }
  }

  /** A placed number moves down with the shift. */
  lemma {:induction false} ShiftPlace(v: int, lo: nat, width: nat)
    ensures ShiftDown(Place(v, lo + 1, width)) == Place(v, lo, width)
    decreases width
  {
    if width > 0 {
      ShiftPlace(v / 2, lo + 1, width - 1);
      var bit: Word, rest := if v % 2 == 1 then {lo + 1} else {}, Place(v / 2, lo + 2, width - 1);
      assert Place(v, lo + 1, width) == bit + rest;
      forall k: nat ensures k in ShiftDown(bit + rest) <==> k in Place(v, lo, width) {
        ShiftBit(bit + rest, k);
        ShiftBit(rest, k);
      }
    }
  }
}
