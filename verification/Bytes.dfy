/** Bytes, byte strings and the two bit operations NOR flash performs. */
module Bytes {
  type byte = x: int | 0 <= x < 256

  const BLANK: byte := 0xFF

  function Repeat(b: byte, n: nat): (s: seq<byte>)
    ensures |s| == n
    ensures forall i :: 0 <= i < n ==> s[i] == b
  {
    seq(n, _ => b)
  }

  function Blank(n: nat): (s: seq<byte>)
    ensures s == Repeat(BLANK, n)
  {
    Repeat(BLANK, n)
  }

  /** `s` with the bytes from `at` on overwritten by `d`. */
  function Splice(s: seq<byte>, at: nat, d: seq<byte>): (r: seq<byte>)
    requires at + |d| <= |s|
    ensures |r| == |s|
    ensures forall i :: 0 <= i < |s| ==> r[i] == if at <= i < at + |d| then d[i - at] else s[i]
  {
    seq(|s|, i requires 0 <= i < |s| => if at <= i < at + |d| then d[i - at] else s[i])
  }

  lemma SpliceSlices(s: seq<byte>, at: nat, d: seq<byte>)
    requires at + |d| <= |s|
    ensures Splice(s, at, d)[..at] == s[..at]
    ensures Splice(s, at, d)[at..at + |d|] == d
    ensures Splice(s, at, d)[at + |d|..] == s[at + |d|..]
  { }

  lemma SliceInSlice<T>(s: seq<T>, lo: nat, hi: nat, i: nat, j: nat)
    requires lo <= hi <= |s| && i <= j <= hi - lo
    ensures s[lo..hi][i..j] == s[lo + i..lo + j]
  {
    var part := s[lo..hi];
    forall k | 0 <= k < j - i ensures part[i..j][k] == s[lo + i..lo + j][k] {
      assert part[i + k] == s[lo + (i + k)];
    }
  }

  lemma SliceOfSlice<T>(s: seq<T>, m: nat, i: nat, j: nat)
    requires i <= j <= m <= |s|
    ensures s[..m][i..j] == s[i..j]
  { }

  lemma BlankSlice(s: seq<byte>, at: nat, to: nat)
    requires at <= to <= |s| && s[at..] == Blank(|s| - at)
    ensures s[at..to] == Blank(to - at)
  {
    assert s[at..to] == s[at..][..to - at];
  }

  function Ones(bits: nat): nat { if bits == 0 then 0 else 2 * Ones(bits - 1) + 1 }

  /** Bitwise conjunction of the low `bits` bits. */
  function AndBits(a: nat, b: nat, bits: nat): (r: nat)
    ensures r <= Ones(bits)
    ensures a == Ones(bits) && b <= Ones(bits) ==> r == b
    ensures b == Ones(bits) && a <= Ones(bits) ==> r == a
  {
    if bits == 0 then 0 else 2 * AndBits(a / 2, b / 2, bits - 1) + (if a % 2 == 1 && b % 2 == 1 then 1 else 0)
  }

  /** Programming a NOR cell can only clear bits. */
  function And(a: byte, b: byte): (r: byte)
    ensures a == BLANK ==> r == b
    ensures b == BLANK ==> r == a
  {
    assert Ones(8) == 255;
    AndBits(a, b, 8)
  }

  /** By De Morgan, `255 - x` being the complement of `x`. */
  function Or(a: byte, b: byte): (r: byte)
    ensures a == BLANK ==> r == BLANK
    ensures b == BLANK ==> r == BLANK
  {
    OrBlank(a, b);
    255 - And(255 - a, 255 - b)
  }

  lemma OrBlank(a: byte, b: byte)
    ensures a == BLANK || b == BLANK ==> And(255 - a, 255 - b) == 0
  {
    hide AndBits;
    AndZero(255 - b, 8);
    AndZero(255 - a, 8);
  }

  lemma AndZero(b: nat, bits: nat)
    ensures AndBits(0, b, bits) == 0 && AndBits(b, 0, bits) == 0
  { }

  /** A fold of a byte-step function, the shape of every checksum in the code. */
  function Fold(step: (int, byte) -> int, acc: int, s: seq<byte>): int
    decreases |s|
  {
    if s == [] then acc else Fold(step, step(acc, s[0]), s[1..])
  }

  /** Feeding a checksum piece by piece is feeding it the whole. */
  lemma {:induction false} FoldConcat(step: (int, byte) -> int, acc: int, a: seq<byte>, b: seq<byte>)
    ensures Fold(step, acc, a + b) == Fold(step, Fold(step, acc, a), b)
    decreases |a|
  {
    if a == [] {
      assert a + b == b;
    } else {
      assert (a + b)[0] == a[0] && (a + b)[1..] == a[1..] + b;
      FoldConcat(step, step(acc, a[0]), a[1..], b);
    }
  }
}
