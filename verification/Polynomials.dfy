/** Polynomials over the two-element field as bit strings, and their remainders. */
module Polynomials {
  import opened Bytes

  /** Coefficients, the highest first. */
  type Bits = seq<bool>

  function Bit(b: bool): nat { if b then 1 else 0 }

  function Zeros(n: nat): (z: Bits)
    ensures |z| == n && forall i :: 0 <= i < n ==> !z[i]
  {
    seq(n, _ => false)
  }

  /** The bits of a byte string, each byte's highest bit first. */
  function BitsOf(s: seq<byte>): (m: Bits)
    ensures |m| == 8 * |s|
  {
    if s == [] then [] else ByteBits(s[0]) + BitsOf(s[1..])
  }

  function ByteBits(b: byte): (m: Bits)
    ensures |m| == 8
  {
    [b / 128 % 2 == 1, b / 64 % 2 == 1, b / 32 % 2 == 1, b / 16 % 2 == 1,
     b / 8 % 2 == 1, b / 4 % 2 == 1, b / 2 % 2 == 1, b % 2 == 1]
  }

  /** The number the bits stand for. */
  function Value(m: Bits): (v: nat) {
    if m == [] then 0 else 2 * Value(m[..|m| - 1]) + Bit(m[|m| - 1])
  }

  /** The sum of two polynomials. */
  function Add(a: Bits, b: Bits): (c: Bits)
    requires |a| == |b|
    ensures |c| == |a| && forall i :: 0 <= i < |a| ==> c[i] == (a[i] != b[i])
  {
    seq(|a|, i requires 0 <= i < |a| => a[i] != b[i])
  }

  /** x^16 + x^12 + x^5 + 1. */
  function Generator(): (g: Bits)
    ensures |g| == 17 && forall i :: 0 <= i < 17 ==> (g[i] <==> 16 - i in {16, 12, 5, 0})
  {
    seq(17, i => i == 0 || i == 4 || i == 11 || i == 16)
  }

  /** Sixteen bits for a polynomial of lower degree. */
  function Pad16(m: Bits): (r: Bits)
    requires |m| <= 16
    ensures |r| == 16
  {
    Zeros(16 - |m|) + m
  }

  /** One step of the division takes the highest power away. */
  function Reduce(m: Bits): (r: Bits)
    requires |m| > 16
    ensures |r| == |m| - 1
  {
    (if m[0] then Add(m[..17], Generator()) else m[..17])[1..] + m[17..]
  }

  /** Long division: the remainder modulo the generator. */
  function Remainder(m: Bits): (r: Bits)
    ensures |r| == 16
    decreases |m|
  {
    if |m| <= 16 then Pad16(m) else Remainder(Reduce(m))
  }

  // ---- the remainder, one bit at a time ----

  lemma ReduceCells(m: Bits)
    requires |m| > 16
    ensures forall i :: 0 <= i < |m| - 1 ==>
              Reduce(m)[i] == if i < 16 then m[i + 1] != (m[0] && Generator()[i + 1]) else m[i + 1]
  { }

  lemma ReduceAppend(m: Bits, b: bool)
    requires |m| > 16
    ensures Reduce(m + [b]) == Reduce(m) + [b]
  {
    assert (m + [b])[..17] == m[..17] && (m + [b])[17..] == m[17..] + [b];
  }

  lemma {:induction false} RemainderAppend(m: Bits, b: bool)
    ensures Remainder(m + [b]) == Reduce(Remainder(m) + [b])
    decreases |m|
  {
    if |m| < 16 {
      assert Pad16(m + [b]) == Reduce(Pad16(m) + [b]);
    } else if |m| == 16 {
      assert Pad16(m) == m;
      var r := Reduce(m + [b]);
      assert Pad16(r) == r;
    } else {
      ReduceAppend(m, b);
      RemainderAppend(Reduce(m), b);
    }
  }

  // ---- linearity in the low sixteen bits ----

  lemma ReduceAdd(m: Bits, t: Bits)
    requires |m| > 16 && |t| == 16
    ensures Reduce(Add(m, Zeros(|m| - 16) + t)) == Add(Reduce(m), Zeros(|m| - 17) + t)
  {
    var z := Zeros(|m| - 16) + t;
    hide Reduce;
    ReduceCells(m);
    ReduceCells(Add(m, z));
    var low := z[1..];
    assert low == Zeros(|m| - 17) + t;
    assert forall i :: 0 <= i < |m| - 1 ==> low[i] == z[i + 1];
  }

  /** What is added below x^16 is added to the remainder. */
  lemma {:induction false} RemainderAdd(m: Bits, t: Bits)
    requires |m| >= 16 && |t| == 16
    ensures Remainder(Add(m, Zeros(|m| - 16) + t)) == Add(Remainder(m), t)
    decreases |m|
  {
    if |m| == 16 {
      assert Zeros(0) + t == t && Pad16(m) == m && Pad16(Add(m, t)) == Add(m, t);
    } else {
      ReduceAdd(m, t);
      RemainderAdd(Reduce(m), t);
    }
  }

  /** A message followed by its own remainder is a multiple of the generator. */
  lemma MultipleOfGenerator(m: Bits)
    ensures Remainder(m + Remainder(m + Zeros(16))) == Zeros(16)
  {
    var x, t := m + Zeros(16), Remainder(m + Zeros(16));
    assert Add(x, Zeros(|m|) + t) == m + t;
    RemainderAdd(x, t);
    assert Add(t, t) == Zeros(16);
  }

  // ---- bits and numbers ----

  lemma {:induction false} ValueConcat(a: Bits, b: Bits)
    ensures Value(a + b) == Value(a) * Power2(|b|) + Value(b) && Value(b) < Power2(|b|)
    decreases |b|
  {
    if b == [] {
      assert a + b == a;
    } else {
      var c, v, p := b[..|b| - 1], Value(a), Power2(|b| - 1);
      ValueConcat(a, c);
      assert (a + b)[..|a + b| - 1] == a + c && (a + b)[|a + b| - 1] == b[|b| - 1];
      Doubled(v, p);
      assert Power2(|b|) == 2 * p;
      assert Value(b) == 2 * Value(c) + Bit(b[|b| - 1]);
    }
  }

  function Power2(n: nat): (p: nat)
    ensures p > 0
  {
    if n == 0 then 1 else 2 * Power2(n - 1)
  }

  lemma Doubled(v: nat, p: nat)
    ensures 2 * (v * p) == v * (2 * p)
  { }

  lemma {:induction false} ValueInjective(a: Bits, b: Bits)
    requires |a| == |b| && Value(a) == Value(b)
    ensures a == b
    decreases |a|
  {
    if a != [] {
      var n := |a| - 1;
      LastBit(Value(a[..n]), a[n], Value(b[..n]), b[n]);
      ValueInjective(a[..n], b[..n]);
      assert a == a[..n] + [a[n]] && b == b[..n] + [b[n]];
    }
  }

  lemma LastBit(u: nat, x: bool, v: nat, y: bool)
    requires 2 * u + Bit(x) == 2 * v + Bit(y)
    ensures x == y && u == v
  { }

  lemma {:induction false} BitsConcat(a: seq<byte>, b: seq<byte>)
    ensures BitsOf(a + b) == BitsOf(a) + BitsOf(b)
    decreases |a|
  {
    if a == [] {
      assert a + b == b;
    } else {
      assert (a + b)[1..] == a[1..] + b;
      BitsConcat(a[1..], b);
    }
  }
}
