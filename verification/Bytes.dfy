/** Bytes and little-endian numbers. */
module Bytes {
  import Arith

  type Byte = b: int | 0 <= b < 256

  /** The low `width` bytes of n, least significant first. */
  function Le(n: nat, width: nat): (s: seq<Byte>)
    ensures |s| == width
  {
    if width == 0 then [] else [n % 256] + Le(n / 256, width - 1)
  }

  function FromLe(s: seq<Byte>): nat {
    if s == [] then 0 else s[0] + 256 * FromLe(s[1..])
  }

  function Limit(width: nat): nat {
    if width == 0 then 1 else 256 * Limit(width - 1)
  }

  /** A number that fits comes back from its bytes. */
  lemma {:induction false} LeRoundTrip(n: nat, width: nat)
    requires n < Limit(width)
    ensures FromLe(Le(n, width)) == n
  {
    if width > 0 {
      LeRoundTrip(n / 256, width - 1);
      assert Le(n, width)[1..] == Le(n / 256, width - 1);
    }
  }

  lemma {:induction false} FromLeRoundTrip(s: seq<Byte>)
    ensures FromLe(s) < Limit(|s|) && Le(FromLe(s), |s|) == s
  {
    if s != [] {
      FromLeRoundTrip(s[1..]);
      var n := FromLe(s);
      assert n % 256 == s[0] && n / 256 == FromLe(s[1..]);
      assert s == [s[0]] + s[1..];
    }
  }

  /** Byte i of a number in bytes has weight 256 to the i. */
  lemma {:induction false} FromLeByte(s: seq<Byte>, i: nat)
    requires i < |s|
    ensures Limit(i) > 0 && (FromLe(s) / Limit(i)) % 256 == s[i]
  {
    var n := FromLe(s);
    assert n % 256 == s[0] && n / 256 == FromLe(s[1..]);
    if i > 0 {
      FromLeByte(s[1..], i - 1);
      Arith.DivDiv(n, 256, Limit(i - 1));
    } else {
      assert n / 1 == n;
    }
  }

  lemma {:induction false} LeByte(n: nat, width: nat, i: nat)
    requires i < width
    ensures Limit(i) > 0 && Le(n, width)[i] == (n / Limit(i)) % 256
  {
    if i > 0 {
      LeByte(n / 256, width - 1, i - 1);
      Arith.DivDiv(n, 256, Limit(i - 1));
    } else {
      assert n / 1 == n;
    }
  }

  lemma FromLe4(a: Byte, b: Byte, c: Byte, d: Byte)
    ensures FromLe([a, b, c, d]) == a + 0x100 * b + 0x1_0000 * c + 0x100_0000 * d
  {
    var s: seq<Byte> := [a, b, c, d];
    assert s[1..] == [b, c, d] && [b, c, d][1..] == [c, d] && [c, d][1..] == [d] && [d][1..] == [];
    assert FromLe([d]) == d;
    assert FromLe([c, d]) == c + 256 * d;
  }

  /** Text as bytes. */
  function Ascii(s: string): (b: seq<Byte>)
    requires forall i :: 0 <= i < |s| ==> s[i] as int < 128
    ensures |b| == |s| && forall i :: 0 <= i < |s| ==> b[i] == s[i] as int
  {
    seq(|s|, i requires 0 <= i < |s| => s[i] as int)
  }

  lemma Limits()
    ensures Limit(2) == 0x1_0000 && Limit(4) == 0x1_0000_0000
  {
    assert Limit(1) == 256 && Limit(3) == 0x100_0000;
  }

  function Zeros(n: nat): seq<Byte> {
    seq(n, _ => 0)
  }

  predicate AllZero(s: seq<Byte>) {
    forall i :: 0 <= i < |s| ==> s[i] == 0
  }

  method IsZero(s: seq<Byte>) returns (zero: bool)
    ensures zero == AllZero(s)
  {
    for i := 0 to |s|
      invariant forall k :: 0 <= k < i ==> s[k] == 0
    {
      if s[i] != 0 { return false; }
    }
    return true;
  }

  lemma {:induction false} ZeroNumber(s: seq<Byte>)
    requires AllZero(s)
    ensures FromLe(s) == 0
  {
    if s != [] { ZeroNumber(s[1..]); }
  }

  /** Two buffers that differ in exactly one byte, at position i. */
  ghost predicate DifferAt(s: seq<Byte>, t: seq<Byte>, i: nat) {
    |s| == |t| && i < |s| && s[i] != t[i] && forall k :: 0 <= k < |s| && k != i ==> s[k] == t[k]
  }

  // --------------------------------------------------------------------------
  // Bytes in pieces

  /** The first k pieces, one after the other. */
  function Join(pieces: seq<seq<Byte>>, k: nat): seq<Byte>
    requires k <= |pieces|
  {
    if k == 0 then [] else Join(pieces, k - 1) + pieces[k - 1]
  }

  lemma {:induction false} JoinPrefix(pieces: seq<seq<Byte>>, k: nat, n: nat)
    requires k <= n <= |pieces|
    ensures Join(pieces, k) <= Join(pieces, n)
    decreases n
  {
    if k < n { JoinPrefix(pieces, k, n - 1); }
  }

  /** Bytes i to j of piece k, where they stand in the whole. */
  lemma PieceAt(pieces: seq<seq<Byte>>, k: nat, i: nat, j: nat)
    requires k < |pieces| && i <= j <= |pieces[k]|
    ensures var all, at := Join(pieces, |pieces|), |Join(pieces, k)|;
            at + j <= |all| && all[at + i..at + j] == pieces[k][i..j]
  {
    hide Join;
    JoinPrefix(pieces, k + 1, |pieces|);
    JoinStep(pieces, k);
    InPrefix(Join(pieces, |pieces|), Join(pieces, k), pieces[k], i, j);
  }

  lemma JoinStep(pieces: seq<seq<Byte>>, k: nat)
    requires k < |pieces|
    ensures Join(pieces, k + 1) == Join(pieces, k) + pieces[k]
  {
  }

  lemma InPrefix(all: seq<Byte>, a: seq<Byte>, b: seq<Byte>, i: nat, j: nat)
    requires a + b <= all && i <= j <= |b|
    ensures all[|a| + i..|a| + j] == b[i..j]
  {
    var part := all[|a| + i..|a| + j];
    forall k | 0 <= k < j - i ensures part[k] == b[i..j][k] {
      assert part[k] == all[|a| + i + k] == (a + b)[|a| + i + k];
    }
  }
}
