/** The bitwise CRC-32 loop of the USB-root gate, over 32-bit states. */
module Crc32 {
  import opened Bytes
  import opened Words

  const START: Word := Range(0, 32)                 // UINT32_MAX
  const POLY: Word := Place(0xedb8_8320, 0, 32)

  predicate IsState(c: Word) {
    c <= Range(0, 32)
  }

  /** One of the eight inner steps: shift down, and fold the polynomial in if a one fell out. */
  function BitStep(c: Word): Word {
    Xor(ShiftDown(c), if 0 in c then POLY else {})
  }

  /** Its inverse: the top bit tells whether the polynomial went in. */
  function BitBack(c: Word): Word {
    if 31 in c then ShiftUp(Xor(c, POLY)) + {0} else ShiftUp(c)
  }

  lemma Pow31()
    ensures Pow2(31) == 0x8000_0000
  {
    assert Pow2(8) == 256;
    assert Pow2(16) == 65536;
    assert Pow2(24) == 0x100_0000;
  }

  lemma PolyTop()
    ensures 31 in POLY && IsState(POLY)
  {
    hide Place;
    hide Range;
    hide Pow2;
    PlaceInside(0xedb8_8320, 0, 32);
    PlaceBit(0xedb8_8320, 0, 32, 31);
    Pow31();
    assert (0xedb8_8320 / 0x8000_0000) % 2 == 1;
  }

  lemma StepState(c: Word)
    requires IsState(c)
    ensures IsState(BitBack(c)) && IsState(BitStep(c)) && 31 !in ShiftDown(c)
  {
    hide Place;
    PolyTop();
    forall b: nat | b in BitBack(c) ensures b < 32 {
      if 31 in c { assert b == 0 || b - 1 in Xor(c, POLY); }
    }
    forall b: nat | b in ShiftDown(c) ensures b < 31 {
      assert b + 1 in c;
    }
  }

  lemma BackAfterStep(c: Word)
    requires IsState(c)
    ensures BitBack(BitStep(c)) == c
  {
    hide Place;
    hide Range;
    PolyTop();
    StepState(c);
    Shifts(c);
    XorSelf(ShiftDown(c), POLY);
    hide ShiftDown;
    hide ShiftUp;
    assert Xor(ShiftDown(c), {}) == ShiftDown(c);
    assert 31 in BitStep(c) <==> 0 in c;
  }

  lemma StepAfterBack(c: Word)
    requires IsState(c)
    ensures BitStep(BitBack(c)) == c
  {
    hide Place;
    hide Range;
    PolyTop();
    XorSelf(c, POLY);
    Shifts(c);
    Shifts(Xor(c, POLY));
    hide Xor;
    if 31 in c {
      assert ShiftDown(ShiftUp(Xor(c, POLY)) + {0}) == ShiftDown(ShiftUp(Xor(c, POLY)));
    } else {
      assert 0 !in ShiftUp(c);
      XorNothing(ShiftDown(ShiftUp(c)));
    }
  }

  lemma XorNothing(c: Word)
    ensures Xor(c, {}) == c
  {
  }

  /** The step is a bijection on 32-bit states. */
  lemma BitBijection(c: Word)
    requires IsState(c)
    ensures IsState(BitStep(c)) && BitBack(BitStep(c)) == c
    ensures IsState(BitBack(c)) && BitStep(BitBack(c)) == c
  {
    StepState(c);
    BackAfterStep(c);
    StepAfterBack(c);
  }

  // --------------------------------------------------------------------------
  // Bytes and buffers

  function Bits(c: Word, n: nat): Word {
    if n == 0 then c else BitStep(Bits(c, n - 1))
  }

  function Feed(c: Word, b: Byte): Word {
    Bits(Xor(c, Place(b, 0, 8)), 8)
  }

  function FeedAll(c: Word, s: seq<Byte>): Word {
    if s == [] then c else Feed(FeedAll(c, s[..|s| - 1]), s[|s| - 1])
  }

  function Run(s: seq<Byte>): Word {
    FeedAll(START, s)
  }

  /** The value crc32 returns. */
  function Crc(s: seq<Byte>): nat {
    Digits(Range(0, 32) - Run(s), 0, 32)
  }

  method ComputeCrc(s: seq<Byte>) returns (r: nat)
    ensures r == Crc(s)
  {
    hide BitStep;
    hide Place;
    hide Range;
    var c := START;
    var i := 0;
    assert s[..0] == [];
    while i < |s|
      invariant 0 <= i <= |s| && c == Run(s[..i])
    {
      assert s[..i + 1][..i] == s[..i];
      c := Xor(c, Place(s[i], 0, 8));
      ghost var start := c;
      var b := 0;
      while b < 8
        invariant 0 <= b <= 8 && c == Bits(start, b)
      {
        c := BitStep(c);
        b := b + 1;
      }
      i := i + 1;
    }
    assert s[..i] == s;
    r := Digits(Range(0, 32) - c, 0, 32);
  }

  lemma {:induction false} BitsInjective(c: Word, d: Word, n: nat)
    requires IsState(c) && IsState(d)
    ensures IsState(Bits(c, n)) && IsState(Bits(d, n))
    ensures Bits(c, n) == Bits(d, n) ==> c == d
  {
    hide BitStep;
    hide BitBack;
    hide Range;
    if n > 0 {
      BitsInjective(c, d, n - 1);
      BitBijection(Bits(c, n - 1));
      BitBijection(Bits(d, n - 1));
    }
  }

  lemma ByteBits(a: Byte, b: Byte)
    ensures IsState(Place(a, 0, 8))
    ensures Place(a, 0, 8) == Place(b, 0, 8) ==> a == b
  {
    hide Place;
    hide Range;
    PlaceInside(a, 0, 8);
    PlaceReads(a, 0, 8);
    PlaceReads(b, 0, 8);
    Pow8();
    hide Digits;
    hide Pow2;
    Wider();
  }

  lemma Pow8()
    ensures Pow2(8) == 256
  {
  }

  lemma Wider()
    ensures Range(0, 8) <= Range(0, 32)
  {
    hide Range;
  }

  /** Different states stay different under the same byte, and the same state becomes different
      under different bytes. */
  lemma FeedInjective(c: Word, d: Word, a: Byte, b: Byte)
    requires IsState(c) && IsState(d)
    ensures IsState(Feed(c, a)) && IsState(Feed(d, b))
    ensures Feed(c, a) == Feed(d, b) && a == b ==> c == d
    ensures Feed(c, a) == Feed(d, b) && c == d ==> a == b
  {
    hide Bits;
    hide Place;
    hide Range;
    var x, y := Place(a, 0, 8), Place(b, 0, 8);
    ByteBits(a, b);
    ByteBits(b, a);
    BitsInjective(Xor(c, x), Xor(d, y), 8);
    XorSelf(c, x);
    XorSelf(d, y);
  }

  lemma {:induction false} FeedAllState(c: Word, d: Word, s: seq<Byte>)
    requires IsState(c) && IsState(d)
    ensures IsState(FeedAll(c, s)) && IsState(FeedAll(d, s))
    ensures FeedAll(c, s) == FeedAll(d, s) ==> c == d
  {
    hide Feed;
    hide Range;
    if s != [] {
      var n := |s| - 1;
      FeedAllState(c, d, s[..n]);
      FeedInjective(FeedAll(c, s[..n]), FeedAll(d, s[..n]), s[n], s[n]);
    }
  }

  lemma {:induction false} FeedAllThen(c: Word, s: seq<Byte>, t: seq<Byte>)
    ensures FeedAll(c, s + t) == FeedAll(FeedAll(c, s), t)
    decreases |t|
  {
    hide Feed;
    if t == [] {
      assert s + t == s;
    } else {
      var n := |t| - 1;
      FeedAllThen(c, s, t[..n]);
      assert (s + t)[..|s + t| - 1] == s + t[..n];
    }
  }

  // --------------------------------------------------------------------------
  // Up to four bytes at once: they enter the state before any of their bits has left it

  lemma BitStepXor(a: Word, b: Word)
    ensures BitStep(Xor(a, b)) == Xor(BitStep(a), if 0 in b then BitStep(b) else ShiftDown(b))
  {
    hide Place;
    hide ShiftDown;
    ShiftXor(a, b);
    XorNothing(ShiftDown(a));
    XorNothing(ShiftDown(b));
    var x, y := ShiftDown(a), ShiftDown(b);
    XorMoves(x, y, POLY);
    XorMoves(x, POLY, y);
    XorMoves(Xor(x, POLY), y, POLY);
    XorSelf(x, POLY);
    XorNothing(Xor(x, y));
  }

  /** A byte not yet reached passes through the steps unchanged, only lower. */
  lemma {:induction false} BitsPass(a: Word, v: int, lo: nat, n: nat)
    ensures Bits(Xor(a, Place(v, lo + n, 8)), n) == Xor(Bits(a, n), Place(v, lo, 8))
    decreases n
  {
    hide Place;
    hide BitStep;
    hide Xor;
    hide Range;
    if n > 0 {
      BitsPass(a, v, lo + 1, n - 1);
      BitStepXor(Bits(a, n - 1), Place(v, lo + 1, 8));
      PlaceInside(v, lo + 1, 8);
      ShiftPlace(v, lo, 8);
    }
  }

  lemma {:induction false} BitsThen(c: Word, m: nat, n: nat)
    ensures Bits(Bits(c, m), n) == Bits(c, m + n)
    decreases n
  {
    hide BitStep;
    if n > 0 { BitsThen(c, m, n - 1); }
  }

  /** The bytes side by side. */
  function Lay(s: seq<Byte>): Word {
    if s == [] then {} else Xor(Lay(s[..|s| - 1]), Place(s[|s| - 1], 8 * (|s| - 1), 8))
  }

  lemma {:induction false} FeedIsLaid(c: Word, s: seq<Byte>)
    ensures FeedAll(c, s) == Bits(Xor(c, Lay(s)), 8 * |s|)
  {
    hide Place;
    hide Bits;
    hide Xor;
    if s == [] {
      XorNothing(c);
      BitsNone(c);
    } else {
      var k := |s| - 1;
      var y := s[k];
      FeedIsLaid(c, s[..k]);
      BitsPass(Xor(c, Lay(s[..k])), y, 0, 8 * k);
      BitsThen(Xor(Xor(c, Lay(s[..k])), Place(y, 8 * k, 8)), 8 * k, 8);
      XorMoves(c, Lay(s[..k]), Place(y, 8 * k, 8));
    }
  }

  lemma BitsNone(c: Word)
    ensures Bits(c, 0) == c
  {
  }

  lemma {:induction false} LayInside(s: seq<Byte>)
    ensures Lay(s) <= Range(0, 8 * |s|)
  {
    hide Place;
    if s != [] {
      LayInside(s[..|s| - 1]);
      PlaceInside(s[|s| - 1], 8 * (|s| - 1), 8);
    }
  }

  lemma {:induction false} LayInjective(s: seq<Byte>, t: seq<Byte>)
    requires |s| == |t| && Lay(s) == Lay(t)
    ensures s == t
  {
    hide Place;
    hide Xor;
    hide Range;
    if s != [] {
      var k := |s| - 1;
      LayInside(s[..k]);
      LayInside(t[..k]);
      PlaceInside(s[k], 8 * k, 8);
      PlaceInside(t[k], 8 * k, 8);
      XorSplit(Lay(s[..k]), Lay(t[..k]), Place(s[k], 8 * k, 8), Place(t[k], 8 * k, 8), 8 * k);
      PlaceInjective(s[k], t[k], 8 * k);
      LayInjective(s[..k], t[..k]);
      assert s == s[..k] + [s[k]] && t == t[..k] + [t[k]];
    }
  }

  lemma XorSplit(a: Word, b: Word, x: Word, y: Word, k: nat)
    requires a <= Range(0, k) && b <= Range(0, k) && x <= Range(k, 8) && y <= Range(k, 8) && Xor(a, x) == Xor(b, y)
    ensures a == b && x == y
  {
    hide Range;
    forall i: nat ensures (i in a <==> i in b) && (i in x <==> i in y) {
      assert i in Xor(a, x) <==> i in Xor(b, y);
    }
  }

  lemma PlaceInjective(a: Byte, b: Byte, lo: nat)
    requires Place(a, lo, 8) == Place(b, lo, 8)
    ensures a == b
  {
    hide Place;
    hide Digits;
    hide Pow2;
    PlaceReads(a, lo, 8);
    PlaceReads(b, lo, 8);
    Pow8();
  }

  /** From the same state, different blocks of up to four bytes lead to different states. */
  lemma {:induction false} BlockInjective(c: Word, s: seq<Byte>, t: seq<Byte>)
    requires IsState(c) && |s| == |t| <= 4 && FeedAll(c, s) == FeedAll(c, t)
    ensures s == t
  {
    hide Bits;
    hide Lay;
    FeedIsLaid(c, s);
    FeedIsLaid(c, t);
    LayInside(s);
    LayInside(t);
    BitsInjective(Xor(c, Lay(s)), Xor(c, Lay(t)), 8 * |s|);
    XorSelf(c, Lay(s));
    XorSelf(c, Lay(t));
    LayInjective(s, t);
  }

  // --------------------------------------------------------------------------
  // Changed buffers

  /** Two buffers of the same length that differ, and only in the four bytes from p on. */
  ghost predicate DifferWithin(s: seq<Byte>, t: seq<Byte>, p: nat) {
    |s| == |t| && s != t && forall k :: 0 <= k < |s| && s[k] != t[k] ==> p <= k < p + 4
  }

  lemma RunDiffers(a: seq<Byte>, x: seq<Byte>, y: seq<Byte>, b: seq<Byte>)
    requires |x| == |y| <= 4 && x != y
    ensures Run(a + x + b) != Run(a + y + b)
  {
    hide FeedAll;
    hide Range;
    var c := FeedAll(START, a);
    FeedAllState(START, START, a);
    FeedAllState(c, c, x);
    FeedAllState(c, c, y);
    FeedAllThen(START, a + x, b);
    FeedAllThen(START, a + y, b);
    FeedAllThen(START, a, x);
    FeedAllThen(START, a, y);
    FeedAllState(FeedAll(c, x), FeedAll(c, y), b);
    if FeedAll(c, x) == FeedAll(c, y) { BlockInjective(c, x, y); }
  }

  /** Where the difference lies. */
  lemma Window(s: seq<Byte>, t: seq<Byte>, p: nat) returns (hi: nat)
    requires DifferWithin(s, t, p)
    ensures p <= hi <= |s| && hi <= p + 4 && s[p..hi] != t[p..hi]
    ensures s == s[..p] + s[p..hi] + s[hi..] && t == s[..p] + t[p..hi] + s[hi..]
  {
    var k :| 0 <= k < |s| && s[k] != t[k];
    hi := if p + 4 < |s| then p + 4 else |s|;
    assert s[p..hi][k - p] != t[p..hi][k - p];
    assert s[..p] == t[..p];
    assert s[hi..] == t[hi..];
    InThree(s, p, hi);
    InThree(t, p, hi);
  }

  lemma InThree(s: seq<Byte>, lo: nat, hi: nat)
    requires lo <= hi <= |s|
    ensures s == s[..lo] + s[lo..hi] + s[hi..]
  {
  }

  /** The CRCs of buffers that differ only within four consecutive bytes differ. */
  lemma {:induction false} BurstChangesCrc(s: seq<Byte>, t: seq<Byte>, p: nat)
    requires DifferWithin(s, t, p)
    ensures Crc(s) != Crc(t)
  {
    hide Run;
    hide Range;
    hide Digits;
    hide Crc;
    var hi := Window(s, t, p);
    RunDiffers(s[..p], s[p..hi], t[p..hi], s[hi..]);
    if Crc(s) == Crc(t) { CrcInjective(s, t); }
  }

  lemma CrcInjective(s: seq<Byte>, t: seq<Byte>)
    requires Crc(s) == Crc(t)
    ensures Run(s) == Run(t)
  {
    hide Run;
    hide Range;
    hide Digits;
    RunState(s);
    RunState(t);
    var all, c, d := Range(0, 32), Run(s), Run(t);
    assert c == all - (all - c) && d == all - (all - d);
    DigitsInjective(all - c, all - d, 0, 32);
  }

  lemma RunState(s: seq<Byte>)
    ensures IsState(Run(s))
  {
    hide FeedAll;
    hide Range;
    FeedAllState(START, START, s);
  }

  /** In particular when they differ in exactly one byte. */
  lemma {:induction false} OneByteChangesCrc(s: seq<Byte>, t: seq<Byte>, i: nat)
    requires DifferAt(s, t, i)
    ensures Crc(s) != Crc(t)
  {
    BurstChangesCrc(s, t, i);
  }
}
