/** The CRC-16 that the code computes is division by x^16 + x^12 + x^5 + 1. */
module CrcLaws {
  import opened Bytes
  import opened Checksums
  import opened Polynomials

  // ---- the register is a remainder ----

  lemma DivIs(q: nat, p: nat, w: nat)
    requires p in {0x1000, 0x20, 1} && w < p
    ensures (q * p + w) / p == q
  {
    if p == 0x1000 { } else if p == 0x20 { } else { }
  }

  lemma ValueAppend(m: Bits, b: bool)
    ensures Value(m + [b]) == 2 * Value(m) + Bit(b)
  {
    assert (m + [b])[..|m|] == m;
  }

  /** A coefficient with `b` below it. */
  lemma ValueMiddle(a: Bits, t: bool, b: Bits)
    ensures Value(a + [t] + b) == (2 * Value(a) + Bit(t)) * Power2(|b|) + Value(b) && Value(b) < Power2(|b|)
  {
    hide Value, Power2;
    ValueConcat(a + [t], b);
    ValueAppend(a, t);
  }

  lemma FlipNumber(q: nat, t: bool, p: nat, w: nat)
    requires p in {0x1000, 0x20, 1} && w < p
    ensures Flip((2 * q + Bit(t)) * p + w, p) == (2 * q + Bit(!t)) * p + w
  {
    DivIs(2 * q + Bit(t), p, w);
    OneMore(2 * q, p);
  }

  lemma OneMore(q: nat, p: nat)
    ensures (q + 1) * p == q * p + p && (q + 0) * p == q * p
  { }

  /** Flipping the bit of weight 2^(15 - k) is flipping coefficient `k`. */
  lemma FlipAt(x: Bits, k: nat, p: nat)
    requires k < |x| && p == Power2(|x| - 1 - k) && p in {0x1000, 0x20, 1}
    ensures Flip(Value(x), p) == Value(x[k := !x[k]])
  {
    hide Flip, Value, Power2;
    var a, b := x[..k], x[k + 1..];
    assert x == a + [x[k]] + b && x[k := !x[k]] == a + [!x[k]] + b;
    ValueMiddle(a, x[k], b);
    ValueMiddle(a, !x[k], b);
    FlipNumber(Value(a), x[k], p, Value(b));
  }

  lemma Weights()
    ensures Power2(0) == 1 && Power2(5) == 0x20 && Power2(8) == 0x100 && Power2(12) == 0x1000 && Power2(16) == 0x1_0000
  {
    assert Power2(4) == 16;
  }

  lemma AddGenerator(x: Bits)
    requires |x| == 16
    ensures Add(x, Generator()[1..]) == x[3 := !x[3]][10 := !x[10]][15 := !x[15]]
  {
    var g, y := Generator()[1..], x[3 := !x[3]][10 := !x[10]][15 := !x[15]];
    assert forall i :: 0 <= i < 16 ==> g[i] == Generator()[i + 1];
    hide Generator;
    assert forall i :: 0 <= i < 16 ==> y[i] == (x[i] != g[i]);
  }

  lemma SubtractIs(x: Bits)
    requires |x| == 16
    ensures Subtract(Value(x)) == Value(Add(x, Generator()[1..]))
  {
    hide Flip, Value, Add, Generator, Power2;
    Weights();
    AddGenerator(x);
    var y := x[3 := !x[3]];
    var z := y[10 := !x[10]];
    FlipAt(x, 3, 0x1000);
    FlipAt(y, 10, 0x20);
    FlipAt(z, 15, 1);
  }

  lemma ReduceTop(r: Bits, b: bool)
    requires |r| == 16
    ensures var tail := r[1..] + [b];
            Reduce(r + [b]) == if r[0] then Add(tail, Generator()[1..]) else tail
  {
    var m, tail, g := r + [b], r[1..] + [b], Generator()[1..];
    hide Reduce, Generator;
    ReduceCells(m);
    assert forall i :: 0 <= i < 16 ==> tail[i] == m[i + 1];
    assert forall i :: 0 <= i < 16 ==> g[i] == Generator()[i + 1];
  }

  lemma ValueTop(r: Bits, b: bool)
    requires |r| == 16
    ensures 2 * Value(r) + Bit(b) == 0x1_0000 * Bit(r[0]) + Value(r[1..] + [b]) && Value(r[1..] + [b]) < 0x1_0000
  {
    hide Value, Power2;
    var tail := r[1..] + [b];
    ValueAppend(r, b);
    assert r + [b] == [] + [r[0]] + tail;
    ValueMiddle([], r[0], tail);
    Weights();
    NoValue();
  }

  lemma NoValue()
    ensures Value([]) == 0
  { }

  lemma ShiftIsReduce(r: Bits, b: bool)
    requires |r| == 16
    ensures ShiftIn(Value(r), Bit(b)) == Value(Reduce(r + [b]))
  {
    hide Subtract, Value, Reduce, Add, Generator;
    ReduceTop(r, b);
    ValueTop(r, b);
    SubtractIs(r[1..] + [b]);
  }

  /** The register after the bits `m`. */
  ghost predicate Holds(crc: int, m: Bits) { crc == Value(Remainder(m)) }

  lemma BitFed(crc: nat, m: Bits, b: bool)
    requires Holds(crc, m)
    ensures Holds(ShiftIn(crc, Bit(b)), m + [b])
  {
    RemainderAppend(m, b);
    ShiftIsReduce(Remainder(m), b);
  }

  lemma Narrow(crc: nat, m: Bits)
    requires Holds(crc, m)
    ensures crc < 0x1_0000
  {
    hide Value, Remainder;
    Narrower(Remainder(m));
  }

  /** The highest bits of a byte that is shifted to the left. */
  function Front(b: byte, n: nat): (m: Bits)
    requires n <= 8
    ensures |m| == n
  {
    ByteBits(b)[..n]
  }

  lemma NextBit(b: byte, n: nat)
    requires n < 8
    ensures Shifted(b, n) / 128 % 2 == Bit(ByteBits(b)[n]) && Shifted(b, n) * 2 == Shifted(b, n + 1)
  {
    InputBit(b, n);
    hide ByteBits, Shifted;
    ShiftedIs(b, n);
    BitAt(b);
    match n
    case 0 => Power(b, 1); case 1 => Power(b, 2); case 2 => Power(b, 4); case 3 => Power(b, 8);
    case 4 => Power(b, 16); case 5 => Power(b, 32); case 6 => Power(b, 64); case _ => Power(b, 128);
  }

  lemma ShiftedIs(b: byte, n: nat)
    requires n < 8
    ensures Shifted(b, n) == b * match n case 0 => 1 case 1 => 2 case 2 => 4 case 3 => 8
                                         case 4 => 16 case 5 => 32 case 6 => 64 case _ => 128
  { }

  lemma BitAt(b: byte)
    ensures var m := ByteBits(b);
            && Bit(m[0]) == b / 128 % 2 && Bit(m[1]) == b / 64 % 2 && Bit(m[2]) == b / 32 % 2
            && Bit(m[3]) == b / 16 % 2 && Bit(m[4]) == b / 8 % 2 && Bit(m[5]) == b / 4 % 2
            && Bit(m[6]) == b / 2 % 2 && Bit(m[7]) == b % 2
  { }

  lemma Power(b: byte, p: nat)
    requires p in {1, 2, 4, 8, 16, 32, 64, 128}
    ensures b * p / 128 == b / (128 / p)
  { }

  lemma {:induction false} BitsFed(crc: nat, m: Bits, b: byte, n: nat)
    requires n <= 8 && Holds(crc, m + Front(b, n))
    ensures Holds(ShiftByte(crc, Shifted(b, n), 8 - n), m + ByteBits(b))
    decreases 8 - n
  {
    hide Holds, ShiftIn, Shifted;
    if n == 8 {
      Narrow(crc, m + Front(b, 8));
      assert Front(b, 8) == ByteBits(b);
    } else {
      NextBit(b, n);
      var bit := ByteBits(b)[n];
      assert m + Front(b, n) + [bit] == m + Front(b, n + 1);
      BitFed(crc, m + Front(b, n), bit);
      BitsFed(ShiftIn(crc, Bit(bit)), m, b, n + 1);
      ByteUnfolds(crc, Shifted(b, n), 7 - n);
    }
  }

  lemma ByteFed(crc: int, m: Bits, b: byte)
    requires Holds(crc, m)
    ensures Holds(UpdateCrc16(crc, b), m + ByteBits(b))
  {
    assert m + Front(b, 0) == m;
    Unshifted(b);
    BitsFed(crc, m, b, 0);
  }

  lemma {:induction false} BytesFed(crc: int, m: Bits, s: seq<byte>)
    requires Holds(crc, m)
    ensures Holds(Fold(UpdateCrc16, crc, s), m + BitsOf(s))
    decreases |s|
  {
    hide Holds, UpdateCrc16, BitsOf, ByteBits;
    BitsStep(m, s);
    if s != [] {
      ByteFed(crc, m, s[0]);
      BytesFed(UpdateCrc16(crc, s[0]), m + ByteBits(s[0]), s[1..]);
    }
  }

  lemma BitsStep(m: Bits, s: seq<byte>)
    ensures m + BitsOf(s) == if s == [] then m else m + ByteBits(s[0]) + BitsOf(s[1..])
  {
    hide ByteBits;
  }

  lemma NothingFed()
    ensures Holds(0, [])
  {
    ZeroValue(16);
    assert Pad16([]) == Zeros(16);
  }

  lemma {:induction false} ZeroValue(n: nat)
    ensures Value(Zeros(n)) == 0
    decreases n
  {
    if n > 0 {
      ZeroValue(n - 1);
      assert Zeros(n)[..n - 1] == Zeros(n - 1);
    }
  }

  /** What the register holds after any bytes is the remainder of those bytes. */
  lemma RegisterIsRemainder(s: seq<byte>)
    ensures Fold(UpdateCrc16, 0, s) == Value(Remainder(BitsOf(s)))
  {
    NothingFed();
    BytesFed(0, [], s);
    assert [] + BitsOf(s) == BitsOf(s);
  }

  /** The CRC is the remainder of the message times x^16. */
  lemma CrcIsRemainder(s: seq<byte>)
    ensures Crc16(s) == Value(Remainder(BitsOf(s) + Zeros(16)))
  {
    hide UpdateCrc16, Remainder, Value, BitsOf, Fold;
    FoldConcat(UpdateCrc16, 0, s, [0, 0]);
    var r := Fold(UpdateCrc16, 0, s);
    TwoZeros(r);
    RegisterIsRemainder(s + [0, 0]);
    BitsConcat(s, [0, 0]);
    ZeroBits();
    RemainderNarrow(BitsOf(s) + Zeros(16));
  }

  lemma TwoZeros(r: int)
    ensures Fold(UpdateCrc16, r, [0, 0]) == UpdateCrc16(UpdateCrc16(r, 0), 0)
  {
    hide UpdateCrc16;
    assert [0, 0][1..] == [0] && [0][1..] == [];
    assert Fold(UpdateCrc16, UpdateCrc16(r, 0), [0]) == Fold(UpdateCrc16, UpdateCrc16(UpdateCrc16(r, 0), 0), []);
  }

  lemma ZeroBits()
    ensures BitsOf([0, 0]) == Zeros(16)
  {
    assert [0, 0][1..] == [0] && [0][1..] == [];
    assert BitsOf([0]) == ByteBits(0) + BitsOf([]);
  }

  lemma RemainderNarrow(m: Bits)
    ensures Value(Remainder(m)) < 0x1_0000
  {
    Narrow(Value(Remainder(m)), m);
  }

  // ---- the trailer of a packet ----

  lemma ByteValue(b: byte)
    ensures Value(ByteBits(b)) == b
  {
    var m := ByteBits(b);
    hide ByteBits, Value;
    EightBits(m);
    BitAt(b);
    Halves(b);
  }

  /** Different bytes have different bits. */
  lemma {:induction false} BitsInjective(s: seq<byte>, t: seq<byte>)
    requires |s| == |t| && BitsOf(s) == BitsOf(t)
    ensures s == t
    decreases |s|
  {
    if s != [] {
      var a, b := BitsOf(s), BitsOf(t);
      assert a[..8] == ByteBits(s[0]) && b[..8] == ByteBits(t[0]);
      assert a[8..] == BitsOf(s[1..]) && b[8..] == BitsOf(t[1..]);
      hide ByteBits;
      ByteValue(s[0]);
      ByteValue(t[0]);
      BitsInjective(s[1..], t[1..]);
      assert s == [s[0]] + s[1..] && t == [t[0]] + t[1..];
    }
  }

  lemma Halves(b: byte)
    ensures b == 128 * (b / 128 % 2) + 64 * (b / 64 % 2) + 32 * (b / 32 % 2) + 16 * (b / 16 % 2)
                  + 8 * (b / 8 % 2) + 4 * (b / 4 % 2) + 2 * (b / 2 % 2) + b % 2
  {
    Half(b, 1);
    Half(b, 2);
    Half(b, 4);
    Half(b, 8);
    Half(b, 16);
    Half(b, 32);
    Half(b, 64);
    assert b / 128 < 2;
  }

  lemma Half(b: byte, k: nat)
    requires k in {1, 2, 4, 8, 16, 32, 64}
    ensures b / k == 2 * (b / (2 * k)) + b / k % 2
  { }

  lemma ValueLast(m: Bits, n: nat)
    requires n < |m|
    ensures Value(m[..n + 1]) == 2 * Value(m[..n]) + Bit(m[n]) && Value(m[..0]) == 0
  {
    assert m[..n + 1][..n] == m[..n];
  }

  lemma EightBits(m: Bits)
    requires |m| == 8
    ensures Value(m) == 128 * Bit(m[0]) + 64 * Bit(m[1]) + 32 * Bit(m[2]) + 16 * Bit(m[3])
                        + 8 * Bit(m[4]) + 4 * Bit(m[5]) + 2 * Bit(m[6]) + Bit(m[7])
  {
    hide Value;
    ValueLast(m, 0);
    ValueLast(m, 1);
    ValueLast(m, 2);
    ValueLast(m, 3);
    ValueLast(m, 4);
    ValueLast(m, 5);
    ValueLast(m, 6);
    ValueLast(m, 7);
    assert m[..8] == m;
  }

  /** High byte first: that is what makes the packet a multiple of the generator. */
  lemma TrailerBits(m: Bits, crc: nat)
    requires |m| == 16 && crc == Value(m)
    ensures crc < 0x1_0000 && BitsOf([crc / 256, crc % 256]) == m
  {
    hide Value, BitsOf, ByteBits, Power2;
    Narrower(m);
    TwoBytes(crc / 256, crc % 256);
    ValueInjective(BitsOf([crc / 256, crc % 256]), m);
  }

  lemma Narrower(m: Bits)
    requires |m| == 16
    ensures Value(m) < 0x1_0000
  {
    hide Value, Power2;
    ValueConcat([], m);
    Weights();
  }

  lemma TwoBytes(hi: byte, lo: byte)
    ensures |BitsOf([hi, lo])| == 16 && Value(BitsOf([hi, lo])) == 256 * hi + lo
  {
    hide Value, ByteBits, Power2;
    assert [hi, lo][1..] == [lo] && [lo][1..] == [];
    assert BitsOf([hi, lo]) == ByteBits(hi) + BitsOf([lo]) && BitsOf([lo]) == ByteBits(lo) + BitsOf([]);
    assert BitsOf([hi, lo]) == ByteBits(hi) + ByteBits(lo);
    ValueConcat(ByteBits(hi), ByteBits(lo));
    ByteValue(hi);
    ByteValue(lo);
    Weights();
  }

  /** A payload with its CRC behind it, high byte first, leaves the register at 0. */
  lemma NoResidue(s: seq<byte>)
    ensures Crc16(s) < 0x1_0000
    ensures Remainder(BitsOf(s + [Crc16(s) / 256, Crc16(s) % 256])) == Zeros(16)
    ensures Fold(UpdateCrc16, 0, s + [Crc16(s) / 256, Crc16(s) % 256]) == 0
  {
    hide Remainder, Value, UpdateCrc16, BitsOf;
    CrcIsRemainder(s);
    var r := Remainder(BitsOf(s) + Zeros(16));
    TrailerBits(r, Crc16(s));
    var t: seq<byte> := [Crc16(s) / 256, Crc16(s) % 256];
    BitsConcat(s, t);
    MultipleOfGenerator(BitsOf(s));
    RegisterIsRemainder(s + t);
    ZeroValue(16);
  }

  // ---- known values ----

  /** Eight shifts in a row, with the registers they leave. */
  lemma Steps(b: byte, c0: nat, c1: nat, c2: nat, c3: nat, c4: nat, c5: nat, c6: nat, c7: nat, c8: nat)
    requires c1 == ShiftIn(c0, b / 128 % 2) && c2 == ShiftIn(c1, b / 64 % 2)
    requires c3 == ShiftIn(c2, b / 32 % 2) && c4 == ShiftIn(c3, b / 16 % 2)
    requires c5 == ShiftIn(c4, b / 8 % 2) && c6 == ShiftIn(c5, b / 4 % 2)
    requires c7 == ShiftIn(c6, b / 2 % 2) && c8 == ShiftIn(c7, b % 2) && c8 < 0x1_0000
    ensures UpdateCrc16(c0, b) == c8
  {
    hide ShiftIn, ShiftByte, Shifted, ByteBits;
    var c := [c0, c1, c2, c3, c4, c5, c6, c7, c8];
    Unshifted(b);
    BitAt(b);
    forall i | 0 <= i < 8 ensures c[i + 1] == ShiftIn(c[i], Shifted(b, i) / 128 % 2) { NextBit(b, i); }
    StepsFrom(c, b, 0);
    ByteUnfolds(c[8], Shifted(b, 8), 0);
  }

  lemma {:induction false} StepsFrom(c: seq<nat>, b: byte, n: nat)
    requires |c| == 9 && n <= 8
    requires forall i :: 0 <= i < 8 ==> c[i + 1] == ShiftIn(c[i], Shifted(b, i) / 128 % 2)
    ensures ShiftByte(c[n], Shifted(b, n), 8 - n) == ShiftByte(c[8], Shifted(b, 8), 0)
    decreases 8 - n
  {
    hide ShiftIn, ShiftByte, Shifted;
    if n < 8 {
      InputBit(b, n);
      ByteUnfolds(c[n], Shifted(b, n), 7 - n);
      StepsFrom(c, b, n + 1);
    }
  }

  lemma FoldStep(crc: int, s: seq<byte>, k: nat)
    requires k < |s|
    ensures Fold(UpdateCrc16, crc, s[k..]) == Fold(UpdateCrc16, UpdateCrc16(crc, s[k]), s[k + 1..])
  {
    hide UpdateCrc16;
    assert s[k..][1..] == s[k + 1..];
  }

  lemma OneIn()
    ensures UpdateCrc16(0, 1) == 1 && UpdateCrc16(1, 0) == 0x100
  {
    hide UpdateCrc16;
    Steps(1, 0, 0, 0, 0, 0, 0, 0, 0, 1);
    Steps(0, 1, 2, 4, 8, 0x10, 0x20, 0x40, 0x80, 0x100);
  }

  lemma OneOut()
    ensures UpdateCrc16(0x100, 0) == 0x1021
  {
    hide UpdateCrc16;
    Steps(0, 0x100, 0x200, 0x400, 0x800, 0x1000, 0x2000, 0x4000, 0x8000, 0x1021);
  }

  /** The one byte 1 has the CRC 0x1021. */
  lemma CrcOfOne()
    ensures Crc16([1]) == 0x1021
  {
    hide UpdateCrc16;
    FoldStep(0, [1], 0);
    OneIn();
    OneOut();
  }

  lemma Plain(c: nat, bit: nat)
    requires bit < 2 && c < 0x8000
    ensures ShiftIn(c, bit) == 2 * c + bit
  { }

  lemma Carried(c: nat, bit: nat)
    requires bit < 2 && 0x8000 <= c < 0x1_0000
    ensures ShiftIn(c, bit) == Subtract(2 * c + bit - 0x1_0000)
  {
    hide Subtract;
  }

  lemma OneShifted()
    ensures ShiftIn(0, 0) == 0 && ShiftIn(0, 0) == 0 && ShiftIn(0, 1) == 1 && ShiftIn(1, 1) == 3
    ensures ShiftIn(3, 0) == 6 && ShiftIn(6, 0) == 0xC && ShiftIn(0xC, 0) == 0x18 && ShiftIn(0x18, 1) == 0x31
  { }

  lemma AfterOne()
    ensures UpdateCrc16(0, 0x31) == 0x31
  {
    hide *;
    OneShifted();
    Steps(0x31, 0, 0, 0, 1, 3, 6, 0xC, 0x18, 0x31);
  }

  lemma TwoShifted()
    ensures ShiftIn(0x31, 0) == 0x62 && ShiftIn(0x62, 0) == 0xC4
    ensures ShiftIn(0xC4, 1) == 0x189 && ShiftIn(0x189, 1) == 0x313
    ensures ShiftIn(0x313, 0) == 0x626 && ShiftIn(0x626, 0) == 0xC4C
    ensures ShiftIn(0xC4C, 1) == 0x1899 && ShiftIn(0x1899, 0) == 0x3132
  { }

  lemma AfterTwo()
    ensures UpdateCrc16(0x31, 0x32) == 0x3132
  {
    hide *;
    TwoShifted();
    Steps(0x32, 0x31, 0x62, 0xC4, 0x189, 0x313, 0x626, 0xC4C, 0x1899, 0x3132);
  }

  lemma ThreeShifted()
    ensures ShiftIn(0x3132, 0) == 0x6264 && ShiftIn(0x6264, 0) == 0xC4C8
    ensures ShiftIn(0xC4C8, 1) == 0x99B0 && ShiftIn(0x99B0, 1) == 0x2340
    ensures ShiftIn(0x2340, 0) == 0x4680 && ShiftIn(0x4680, 0) == 0x8D00
    ensures ShiftIn(0x8D00, 1) == 0xA20 && ShiftIn(0xA20, 1) == 0x1441
  {
    hide ShiftIn;
    Plain(0x3132, 0);
    Plain(0x6264, 0);
    Carried(0xC4C8, 1);
    Carried(0x99B0, 1);
    Plain(0x2340, 0);
    Plain(0x4680, 0);
    Carried(0x8D00, 1);
    Plain(0xA20, 1);
  }

  lemma AfterThree()
    ensures UpdateCrc16(0x3132, 0x33) == 0x1441
  {
    hide *;
    ThreeShifted();
    Steps(0x33, 0x3132, 0x6264, 0xC4C8, 0x99B0, 0x2340, 0x4680, 0x8D00, 0xA20, 0x1441);
  }

  lemma FourShifted()
    ensures ShiftIn(0x1441, 0) == 0x2882 && ShiftIn(0x2882, 0) == 0x5104
    ensures ShiftIn(0x5104, 1) == 0xA209 && ShiftIn(0xA209, 1) == 0x5432
    ensures ShiftIn(0x5432, 0) == 0xA864 && ShiftIn(0xA864, 1) == 0x40E8
    ensures ShiftIn(0x40E8, 0) == 0x81D0 && ShiftIn(0x81D0, 0) == 0x1381
  {
    hide ShiftIn;
    Plain(0x1441, 0);
    Plain(0x2882, 0);
    Plain(0x5104, 1);
    Carried(0xA209, 1);
    Plain(0x5432, 0);
    Carried(0xA864, 1);
    Plain(0x40E8, 0);
    Carried(0x81D0, 0);
  }

  lemma AfterFour()
    ensures UpdateCrc16(0x1441, 0x34) == 0x1381
  {
    hide *;
    FourShifted();
    Steps(0x34, 0x1441, 0x2882, 0x5104, 0xA209, 0x5432, 0xA864, 0x40E8, 0x81D0, 0x1381);
  }

  lemma FiveShifted()
    ensures ShiftIn(0x1381, 0) == 0x2702 && ShiftIn(0x2702, 0) == 0x4E04
    ensures ShiftIn(0x4E04, 1) == 0x9C09 && ShiftIn(0x9C09, 1) == 0x2832
    ensures ShiftIn(0x2832, 0) == 0x5064 && ShiftIn(0x5064, 1) == 0xA0C9
    ensures ShiftIn(0xA0C9, 0) == 0x51B3 && ShiftIn(0x51B3, 1) == 0xA367
  {
    hide ShiftIn;
    Plain(0x1381, 0);
    Plain(0x2702, 0);
    Plain(0x4E04, 1);
    Carried(0x9C09, 1);
    Plain(0x2832, 0);
    Plain(0x5064, 1);
    Carried(0xA0C9, 0);
    Plain(0x51B3, 1);
  }

  lemma AfterFive()
    ensures UpdateCrc16(0x1381, 0x35) == 0xA367
  {
    hide *;
    FiveShifted();
    Steps(0x35, 0x1381, 0x2702, 0x4E04, 0x9C09, 0x2832, 0x5064, 0xA0C9, 0x51B3, 0xA367);
  }

  lemma SixShifted()
    ensures ShiftIn(0xA367, 0) == 0x56EF && ShiftIn(0x56EF, 0) == 0xADDE
    ensures ShiftIn(0xADDE, 1) == 0x4B9C && ShiftIn(0x4B9C, 1) == 0x9739
    ensures ShiftIn(0x9739, 0) == 0x3E53 && ShiftIn(0x3E53, 1) == 0x7CA7
    ensures ShiftIn(0x7CA7, 1) == 0xF94F && ShiftIn(0xF94F, 0) == 0xE2BF
  {
    hide ShiftIn;
    Carried(0xA367, 0);
    Plain(0x56EF, 0);
    Carried(0xADDE, 1);
    Plain(0x4B9C, 1);
    Carried(0x9739, 0);
    Plain(0x3E53, 1);
    Plain(0x7CA7, 1);
    Carried(0xF94F, 0);
  }

  lemma AfterSix()
    ensures UpdateCrc16(0xA367, 0x36) == 0xE2BF
  {
    hide *;
    SixShifted();
    Steps(0x36, 0xA367, 0x56EF, 0xADDE, 0x4B9C, 0x9739, 0x3E53, 0x7CA7, 0xF94F, 0xE2BF);
  }

  lemma SevenShifted()
    ensures ShiftIn(0xE2BF, 0) == 0xD55F && ShiftIn(0xD55F, 0) == 0xBA9F
    ensures ShiftIn(0xBA9F, 1) == 0x651E && ShiftIn(0x651E, 1) == 0xCA3D
    ensures ShiftIn(0xCA3D, 0) == 0x845B && ShiftIn(0x845B, 1) == 0x1896
    ensures ShiftIn(0x1896, 1) == 0x312D && ShiftIn(0x312D, 1) == 0x625B
  {
    hide ShiftIn;
    Carried(0xE2BF, 0);
    Carried(0xD55F, 0);
    Carried(0xBA9F, 1);
    Plain(0x651E, 1);
    Carried(0xCA3D, 0);
    Carried(0x845B, 1);
    Plain(0x1896, 1);
    Plain(0x312D, 1);
  }

  lemma AfterSeven()
    ensures UpdateCrc16(0xE2BF, 0x37) == 0x625B
  {
    hide *;
    SevenShifted();
    Steps(0x37, 0xE2BF, 0xD55F, 0xBA9F, 0x651E, 0xCA3D, 0x845B, 0x1896, 0x312D, 0x625B);
  }

  lemma EightShifted()
    ensures ShiftIn(0x625B, 0) == 0xC4B6 && ShiftIn(0xC4B6, 0) == 0x994D
    ensures ShiftIn(0x994D, 1) == 0x22BA && ShiftIn(0x22BA, 1) == 0x4575
    ensures ShiftIn(0x4575, 1) == 0x8AEB && ShiftIn(0x8AEB, 0) == 0x5F7
    ensures ShiftIn(0x5F7, 0) == 0xBEE && ShiftIn(0xBEE, 0) == 0x17DC
  {
    hide ShiftIn;
    Plain(0x625B, 0);
    Carried(0xC4B6, 0);
    Carried(0x994D, 1);
    Plain(0x22BA, 1);
    Plain(0x4575, 1);
    Carried(0x8AEB, 0);
    Plain(0x5F7, 0);
    Plain(0xBEE, 0);
  }

  lemma AfterEight()
    ensures UpdateCrc16(0x625B, 0x38) == 0x17DC
  {
    hide *;
    EightShifted();
    Steps(0x38, 0x625B, 0xC4B6, 0x994D, 0x22BA, 0x4575, 0x8AEB, 0x5F7, 0xBEE, 0x17DC);
  }

  lemma NineShifted()
    ensures ShiftIn(0x17DC, 0) == 0x2FB8 && ShiftIn(0x2FB8, 0) == 0x5F70
    ensures ShiftIn(0x5F70, 1) == 0xBEE1 && ShiftIn(0xBEE1, 1) == 0x6DE2
    ensures ShiftIn(0x6DE2, 1) == 0xDBC5 && ShiftIn(0xDBC5, 0) == 0xA7AB
    ensures ShiftIn(0xA7AB, 0) == 0x5F77 && ShiftIn(0x5F77, 1) == 0xBEEF
  {
    hide ShiftIn;
    Plain(0x17DC, 0);
    Plain(0x2FB8, 0);
    Plain(0x5F70, 1);
    Carried(0xBEE1, 1);
    Plain(0x6DE2, 1);
    Carried(0xDBC5, 0);
    Carried(0xA7AB, 0);
    Plain(0x5F77, 1);
  }

  lemma AfterNine()
    ensures UpdateCrc16(0x17DC, 0x39) == 0xBEEF
  {
    hide *;
    NineShifted();
    Steps(0x39, 0x17DC, 0x2FB8, 0x5F70, 0xBEE1, 0x6DE2, 0xDBC5, 0xA7AB, 0x5F77, 0xBEEF);
  }

  lemma FirstZeroShifted()
    ensures ShiftIn(0xBEEF, 0) == 0x6DFF && ShiftIn(0x6DFF, 0) == 0xDBFE
    ensures ShiftIn(0xDBFE, 0) == 0xA7DD && ShiftIn(0xA7DD, 0) == 0x5F9B
    ensures ShiftIn(0x5F9B, 0) == 0xBF36 && ShiftIn(0xBF36, 0) == 0x6E4D
    ensures ShiftIn(0x6E4D, 0) == 0xDC9A && ShiftIn(0xDC9A, 0) == 0xA915
  {
    hide ShiftIn;
    Carried(0xBEEF, 0);
    Plain(0x6DFF, 0);
    Carried(0xDBFE, 0);
    Carried(0xA7DD, 0);
    Plain(0x5F9B, 0);
    Carried(0xBF36, 0);
    Plain(0x6E4D, 0);
    Carried(0xDC9A, 0);
  }

  lemma AfterFirstZero()
    ensures UpdateCrc16(0xBEEF, 0) == 0xA915
  {
    hide *;
    FirstZeroShifted();
    Steps(0, 0xBEEF, 0x6DFF, 0xDBFE, 0xA7DD, 0x5F9B, 0xBF36, 0x6E4D, 0xDC9A, 0xA915);
  }

  lemma SecondZeroShifted()
    ensures ShiftIn(0xA915, 0) == 0x420B && ShiftIn(0x420B, 0) == 0x8416
    ensures ShiftIn(0x8416, 0) == 0x180D && ShiftIn(0x180D, 0) == 0x301A
    ensures ShiftIn(0x301A, 0) == 0x6034 && ShiftIn(0x6034, 0) == 0xC068
    ensures ShiftIn(0xC068, 0) == 0x90F1 && ShiftIn(0x90F1, 0) == 0x31C3
  {
    hide ShiftIn;
    Carried(0xA915, 0);
    Plain(0x420B, 0);
    Carried(0x8416, 0);
    Plain(0x180D, 0);
    Plain(0x301A, 0);
    Plain(0x6034, 0);
    Carried(0xC068, 0);
    Carried(0x90F1, 0);
  }

  lemma AfterSecondZero()
    ensures UpdateCrc16(0xA915, 0) == 0x31C3
  {
    hide *;
    SecondZeroShifted();
    Steps(0, 0xA915, 0x420B, 0x8416, 0x180D, 0x301A, 0x6034, 0xC068, 0x90F1, 0x31C3);
  }

  lemma FirstFive(s: seq<byte>)
    requires s == [0x31, 0x32, 0x33, 0x34, 0x35, 0x36, 0x37, 0x38, 0x39]
    ensures Fold(UpdateCrc16, 0, s) == Fold(UpdateCrc16, 0xA367, s[5..])
  {
    hide UpdateCrc16, Fold;
    assert s[0..] == s;
    AfterOne();
    FoldStep(0, s, 0);
    AfterTwo();
    FoldStep(0x31, s, 1);
    AfterThree();
    FoldStep(0x3132, s, 2);
    AfterFour();
    FoldStep(0x1441, s, 3);
    AfterFive();
    FoldStep(0x1381, s, 4);
  }

  lemma LastFour(s: seq<byte>)
    requires s == [0x31, 0x32, 0x33, 0x34, 0x35, 0x36, 0x37, 0x38, 0x39]
    ensures Fold(UpdateCrc16, 0xA367, s[5..]) == 0xBEEF
  {
    hide UpdateCrc16, Fold;
    AfterSix();
    FoldStep(0xA367, s, 5);
    AfterSeven();
    FoldStep(0xE2BF, s, 6);
    AfterEight();
    FoldStep(0x625B, s, 7);
    AfterNine();
    FoldStep(0x17DC, s, 8);
    FoldNothing(0xBEEF);
    assert s[9..] == [];
  }

  lemma FoldNothing(crc: int)
    ensures Fold(UpdateCrc16, crc, []) == crc
  { }

  /** The check value: the CRC of the digits 1 to 9 is 0x31C3. */
  lemma CheckValue()
    ensures Crc16([0x31, 0x32, 0x33, 0x34, 0x35, 0x36, 0x37, 0x38, 0x39]) == 0x31C3
  {
    hide UpdateCrc16, Fold;
    var s: seq<byte> := [0x31, 0x32, 0x33, 0x34, 0x35, 0x36, 0x37, 0x38, 0x39];
    FirstFive(s);
    LastFour(s);
    AfterFirstZero();
    AfterSecondZero();
  }
}
