/** CRC-16 as `libraries/utilities/CheckSumUtils.c` computes it. */
module Checksums {
  import opened Bytes

  /** Flips the bit of `x` whose weight is `p`. */
  function Flip(x: nat, p: nat): (y: nat)
    requires p > 0
  {
    if x / p % 2 == 0 then x + p else if x >= p then x - p else 0
  }

  /** The polynomial 0x1021 taken off the register. */
  function Subtract(crc: nat): nat { Flip(Flip(Flip(crc, 0x1000), 0x20), 1) }

  /** One bit into the register: shift it in, and subtract the polynomial on overflow. */
  function ShiftIn(crc: nat, bit: nat): nat {
    var c := crc * 2 + bit;
    if c >= 0x1_0000 then Subtract(c % 0x1_0000) else c
  }

  /** `UpdateCRC16`: the eight bits of `b`, highest first. */
  function ShiftByte(crc: nat, b: nat, bits: nat): nat
    decreases bits
  {
    if bits == 0 then crc % 0x1_0000 else ShiftByte(ShiftIn(crc, b / 128 % 2), b * 2, bits - 1)
  }

  function UpdateCrc16(crc: int, b: byte): int {
    ShiftByte(if crc < 0 then 0 else crc, b, 8)
  }

  /** Init, update over `s`, final. */
  function Crc16(s: seq<byte>): (crc: int)
    ensures 0 <= crc < 0x1_0000
  {
    CrcFinal(Fold(UpdateCrc16, 0, s))
  }

  function CrcFinal(crc: int): (r: int)
    ensures 0 <= r < 0x1_0000
  {
    UpdateCrc16(UpdateCrc16(crc, 0), 0) % 0x1_0000
  }

  // ---- the loops ----

  const WIDTH := 0x1_0000

  lemma HighPart(q: nat, r: nat)
    requires r < WIDTH
    ensures (WIDTH * q + r) / WIDTH == q && (WIDTH * q + r) % WIDTH == r
  { }

  lemma Even(k: nat, y: nat)
    ensures (2 * k + y) % 2 == y % 2
  { }

  /** The bits above the sixteen of the register never matter. */
  lemma FlipLow1(h: nat, l: nat)
    requires l < WIDTH
    ensures Flip(WIDTH * h + l, 1) == WIDTH * h + Flip(l, 1) && Flip(l, 1) < WIDTH
  {
    Even(0x8000 * h, l);
  }

  lemma FlipLow20(h: nat, l: nat)
    requires l < WIDTH
    ensures Flip(WIDTH * h + l, 0x20) == WIDTH * h + Flip(l, 0x20) && Flip(l, 0x20) < WIDTH
  {
    assert (WIDTH * h + l) / 0x20 == 0x800 * h + l / 0x20;
    Even(0x400 * h, l / 0x20);
  }

  lemma FlipLow1000(h: nat, l: nat)
    requires l < WIDTH
    ensures Flip(WIDTH * h + l, 0x1000) == WIDTH * h + Flip(l, 0x1000) && Flip(l, 0x1000) < WIDTH
  {
    assert (WIDTH * h + l) / 0x1000 == 0x10 * h + l / 0x1000;
    Even(8 * h, l / 0x1000);
  }

  lemma SubtractLow(h: nat, l: nat)
    requires l < WIDTH
    ensures Subtract(WIDTH * h + l) == WIDTH * h + Subtract(l) && Subtract(l) < WIDTH
  {
    hide Flip;
    FlipLow1000(h, l);
    FlipLow20(h, Flip(l, 0x1000));
    FlipLow1(h, Flip(Flip(l, 0x1000), 0x20));
  }

  /** One turn of the loop on a register whose high bits `h` are not cut off. */
  lemma ShiftLow(h: nat, l: nat, bit: nat)
    requires bit < 2 && l < WIDTH
    ensures var c := (WIDTH * h + l) * 2 + bit;
            ShiftIn(l, bit) == (if c / WIDTH % 2 == 1 then Subtract(c) else c) % WIDTH
  {
    hide Flip, Subtract;
    var c, d := (WIDTH * h + l) * 2 + bit, l * 2 + bit;
    if d < WIDTH {
      HighPart(2 * h, d);
      assert c == WIDTH * (2 * h) + d;
    } else {
      HighPart(2 * h + 1, d - WIDTH);
      assert c == WIDTH * (2 * h + 1) + (d - WIDTH);
      SubtractLow(2 * h + 1, d - WIDTH);
      HighPart(2 * h + 1, Subtract(d - WIDTH));
    }
  }

  /** The input after `i` shifts, without and with the marker bit above it. */
  function Shifted(b: byte, i: nat): nat
    requires i <= 8
  {
    match i
    case 0 => b case 1 => b * 2 case 2 => b * 4 case 3 => b * 8 case 4 => b * 16
    case 5 => b * 32 case 6 => b * 64 case 7 => b * 128 case _ => b * 256
  }

  function Marked(b: byte, i: nat): nat
    requires i <= 8
  {
    match i
    case 0 => 0x100 + b case 1 => 0x200 + b * 2 case 2 => 0x400 + b * 4
    case 3 => 0x800 + b * 8 case 4 => 0x1000 + b * 16
    case 5 => 0x2000 + b * 32 case 6 => 0x4000 + b * 64 case 7 => 0x8000 + b * 128 case _ => 0x1_0000 + b * 256
  }

  /** The loop sees the bits of the byte, and the marker comes out after the eighth. */
  lemma InputBit(b: byte, i: nat)
    requires i < 8
    ensures Marked(b, i) * 2 == Marked(b, i + 1) && Shifted(b, i) * 2 == Shifted(b, i + 1)
    ensures Marked(b, i + 1) / 0x100 % 2 == Shifted(b, i) / 128 % 2
    ensures Marked(b, i + 1) / WIDTH % 2 == 1 <==> i == 7
  {
    var y := Shifted(b, i);
    match i
    case 0 => BitAbove(1, y); case 1 => BitAbove(2, y); case 2 => BitAbove(4, y); case 3 => BitAbove(8, y);
    case 4 => BitAbove(16, y); case 5 => BitAbove(32, y); case 6 => BitAbove(64, y);
    case _ => BitAbove(128, y); HighPart(1, 2 * y);
  }

  lemma BitAbove(k: nat, y: nat)
    ensures (0x200 * k + 2 * y) / 0x100 % 2 == y / 128 % 2
  {
    assert (0x200 * k + 2 * y) / 0x100 == 2 * k + y / 128;
    Even(k, y / 128);
  }

  /** Shifts one bit in, cutting nothing off. */
  method ShiftRegister(crc: nat, bit: nat) returns (crc': nat)
    requires bit < 2
    ensures crc' % WIDTH == ShiftIn(crc % WIDTH, bit)
  {
    hide ShiftIn, Subtract;
    assert crc == WIDTH * (crc / WIDTH) + crc % WIDTH;
    ShiftLow(crc / WIDTH, crc % WIDTH, bit);
    crc' := crc * 2 + bit;
    if crc' / WIDTH % 2 == 1 { crc' := Subtract(crc'); }
  }

  lemma ByteUnfolds(crc: nat, x: nat, bits: nat)
    ensures ShiftByte(crc, x, bits + 1) == ShiftByte(ShiftIn(crc, x / 128 % 2), x * 2, bits)
    ensures ShiftByte(crc, x, 0) == crc % WIDTH
  { }

  /** `UpdateCRC16`: the marker bit above the byte ends the loop, and the bits that leave the
      sixteen of the register are cut off only at the end. */
  method UpdateByte(crcIn: nat, b: byte) returns (r: nat)
    requires crcIn < WIDTH
    ensures r == UpdateCrc16(crcIn, b) < WIDTH
  {
    hide ShiftByte, ShiftIn, Shifted, Marked;
    var crc: nat, inn: nat := crcIn, 0x100 + b;
    ghost var i := 0;
    Unshifted(b);
    while true
      invariant 0 <= i < 8 && inn == Marked(b, i)
      invariant ShiftByte(crc % WIDTH, Shifted(b, i), 8 - i) == ShiftByte(crcIn, b, 8)
      decreases 8 - i
    {
      InputBit(b, i);
      ByteUnfolds(crc % WIDTH, Shifted(b, i), 7 - i);
      inn := inn * 2;
      crc := ShiftRegister(crc, inn / 0x100 % 2);
      i := i + 1;
      if inn / WIDTH % 2 == 1 { break; }
    }
    ByteUnfolds(crc % WIDTH, Shifted(b, 8), 0);
    r := crc % WIDTH;
  }

  lemma Unshifted(b: byte)
    ensures Shifted(b, 0) == b && Marked(b, 0) == 0x100 + b
  { }

  lemma FoldOne(step: (int, byte) -> int, acc: int, s: seq<byte>, at: nat)
    requires at < |s|
    ensures Fold(step, acc, s[..at + 1]) == step(Fold(step, acc, s[..at]), s[at])
  {
    var before := Fold(step, acc, s[..at]);
    FoldConcat(step, acc, s[..at], [s[at]]);
    assert s[..at + 1] == s[..at] + [s[at]];
    assert Fold(step, before, [s[at]]) == Fold(step, step(before, s[at]), []);
  }

  /** `CRC16_Final`. */
  method Crc16Final(crc: nat) returns (crc': nat)
    requires crc < WIDTH
    ensures crc' == CrcFinal(crc)
  {
    hide UpdateCrc16;
    crc' := UpdateByte(crc, 0);
    crc' := UpdateByte(crc', 0);
  }

  /** `Cal_CRC16` over part of a buffer. */
  method CalCrc16(data: array<byte>, from: nat, size: nat) returns (crc: nat)
    requires from + size <= data.Length
    ensures crc == Crc16(data[from..from + size])
  {
    hide UpdateCrc16;
    ghost var s := data[from..from + size];
    crc := 0;
    for i := 0 to size
      invariant crc == Fold(UpdateCrc16, 0, s[..i]) < 0x1_0000
    {
      FoldOne(UpdateCrc16, 0, s, i);
      crc := UpdateByte(crc, data[from + i]);
    }
    assert s[..size] == s;
    crc := Crc16Final(crc);
  }
}
