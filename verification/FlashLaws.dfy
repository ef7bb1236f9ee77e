/** The flash model in single bits, words and sectors. */
module FlashLaws {
  import opened Bytes
  import opened FlashMemory
  import P = Partitions

  // ---- bits ----

  /** The weight of bit `k`. */
  function Weight(k: nat): (w: nat)
    requires k < 8
    ensures w in {1, 2, 4, 8, 16, 32, 64, 128}
  {
    match k case 0 => 1 case 1 => 2 case 2 => 4 case 3 => 8 case 4 => 16 case 5 => 32 case 6 => 64 case _ => 128
  }

  /** Bit `k` of a byte. */
  predicate Set(x: byte, k: nat)
    requires k < 8
  {
    x / Weight(k) % 2 == 1
  }

  function BitOf(x: nat, k: nat): (b: nat)
    ensures b < 2
  {
    if k == 0 then x % 2 else BitOf(x / 2, k - 1)
  }

  lemma {:induction false} BitOfPart(x: byte, k: nat, j: nat)
    requires k <= j < 8
    ensures BitOf(x / Weight(k), j - k) == BitOf(x / Weight(j), 0)
    decreases j - k
  {
    if k < j {
      Part(x, k);
      assert x / Weight(k) / 2 == x / Weight(k + 1);
      BitOfPart(x, k + 1, j);
    }
  }

  lemma SetIs(x: byte, k: nat)
    requires k < 8
    ensures Set(x, k) <==> BitOf(x, k) == 1
  {
    BitOfPart(x, 0, k);
    assert Weight(0) == 1;
  }

  /** What lies from bit `k` on is bit `k` and what lies behind it. */
  lemma Part(x: byte, k: nat)
    requires k < 8
    ensures x / Weight(k) == (if k == 7 then 0 else 2 * (x / Weight(k + 1))) + x / Weight(k) % 2
  {
    if k < 7 {
      assert Weight(k + 1) == 2 * Weight(k);
      Halved(x, Weight(k));
    }
  }

  lemma Halved(x: byte, w: nat)
    requires w in {1, 2, 4, 8, 16, 32, 64}
    ensures x / w == 2 * (x / (2 * w)) + x / w % 2
  { }

  lemma AndStep(a: nat, b: nat, bits: nat)
    requires bits > 0
    ensures AndBits(a, b, bits) / 2 == AndBits(a / 2, b / 2, bits - 1)
    ensures AndBits(a, b, bits) % 2 == 1 <==> a % 2 == 1 && b % 2 == 1
  {
    var low := if a % 2 == 1 && b % 2 == 1 then 1 else 0;
    assert AndBits(a, b, bits) == 2 * AndBits(a / 2, b / 2, bits - 1) + low;
  }

  lemma {:induction false} AndBitsAt(a: nat, b: nat, bits: nat, k: nat)
    requires k < bits
    ensures BitOf(AndBits(a, b, bits), k) == 1 <==> BitOf(a, k) == 1 && BitOf(b, k) == 1
    decreases bits
  {
    hide AndBits;
    AndStep(a, b, bits);
    if k > 0 { AndBitsAt(a / 2, b / 2, bits - 1, k - 1); }
  }

  /** A bit is left exactly when both have it. */
  lemma AndIsBits(a: byte, b: byte, k: nat)
    requires k < 8
    ensures Set(And(a, b), k) <==> Set(a, k) && Set(b, k)
  {
    AndBitsAt(a, b, 8, k);
    SetIs(a, k);
    SetIs(b, k);
    SetIs(And(a, b), k);
  }

  lemma ComplementQuotient(x: byte, w: nat)
    requires w in {1, 2, 4, 8, 16, 32, 64, 128}
    ensures (255 - x) / w == 256 / w - 1 - x / w && 256 / w % 2 == 0
  { }

  lemma Complement(x: byte, k: nat)
    requires k < 8
    ensures Set(255 - x, k) <==> !Set(x, k)
  {
    hide Weight;
    ComplementQuotient(x, Weight(k));
    Opposite(256 / Weight(k), x / Weight(k));
  }

  lemma Opposite(n: int, q: int)
    requires n % 2 == 0
    ensures (n - 1 - q) % 2 == 1 - q % 2
  { }

  lemma OrIsBits(a: byte, b: byte, k: nat)
    requires k < 8
    ensures Set(Or(a, b), k) <==> Set(a, k) || Set(b, k)
  {
    hide Set, And;
    Complement(a, k);
    Complement(b, k);
    AndIsBits(255 - a, 255 - b, k);
    Complement(And(255 - a, 255 - b), k);
  }

  /** Bytes with the same bits are the same. */
  lemma SameBits(a: byte, b: byte)
    requires forall k: nat :: k < 8 ==> (Set(a, k) <==> Set(b, k))
    ensures a == b
  {
    hide Set;
    SameParts(a, b, 0);
    assert Weight(0) == 1;
  }

  lemma {:induction false} SameParts(a: byte, b: byte, k: nat)
    requires k <= 8 && forall j: nat :: k <= j < 8 ==> (Set(a, j) <==> Set(b, j))
    ensures k < 8 ==> a / Weight(k) == b / Weight(k)
    decreases 8 - k
  {
    hide Weight;
    if k < 8 {
      Part(a, k);
      Part(b, k);
      SameParts(a, b, k + 1);
      assert Set(a, k) <==> Set(b, k);
    }
  }

  /** What a faithful write leaves in a cell: the bits that it had and that are written. */
  lemma WriteClearsBits(before: seq<byte>, data: seq<byte>, i: nat, k: nat)
    requires |data| == |before| && i < |data| && k < 8
    ensures Set(Programmed(before, data)[i], k) <==> Set(before[i], k) && Set(data[i], k)
  {
    AndIsBits(before[i], data[i], k);
  }

  /** A write that loses its power half way: no bit comes back, and none is lost that is to stay. */
  lemma TornWriteBits(before: seq<byte>, data: seq<byte>, noise: seq<byte>, i: nat, k: nat)
    requires |data| == |before| && i < |data| && k < 8
    ensures Set(Torn(before, data, noise)[i], k) ==> Set(before[i], k)
    ensures Set(before[i], k) && Set(data[i], k) ==> Set(Torn(before, data, noise)[i], k)
  {
    hide Set, And, Or;
    var kept := NoiseAt(noise, i);
    OrIsBits(data[i], kept, k);
    AndIsBits(before[i], Or(data[i], kept), k);
  }

  lemma TornCellIs(before: byte, data: byte, after: byte)
    requires forall k: nat :: k < 8 ==> (Set(after, k) ==> Set(before, k))
    requires forall k: nat :: k < 8 && Set(before, k) && Set(data, k) ==> Set(after, k)
    ensures TornCell(before, data, after) == after
  {
    hide Set, And, Or;
    var cell := TornCell(before, data, after);
    forall k: nat | k < 8 ensures Set(cell, k) <==> Set(after, k) {
      OrIsBits(data, after, k);
      AndIsBits(before, Or(data, after), k);
    }
    SameBits(cell, after);
  }

  /** Exactly what such a write can leave. */
  lemma TornIff(before: seq<byte>, data: seq<byte>, after: seq<byte>)
    requires |data| == |before| == |after|
    ensures (exists noise :: Torn(before, data, noise) == after) <==>
              forall i: nat, k: nat :: i < |data| && k < 8 ==>
                (Set(after[i], k) ==> Set(before[i], k)) && (Set(before[i], k) && Set(data[i], k) ==> Set(after[i], k))
  {
    hide Set, And, Or, TornCell;
    if noise :| Torn(before, data, noise) == after {
      forall i: nat, k: nat | i < |data| && k < 8
        ensures (Set(after[i], k) ==> Set(before[i], k)) && (Set(before[i], k) && Set(data[i], k) ==> Set(after[i], k))
      {
        TornWriteBits(before, data, noise, i, k);
      }
    }
    if forall i: nat, k: nat :: i < |data| && k < 8 ==>
         (Set(after[i], k) ==> Set(before[i], k)) && (Set(before[i], k) && Set(data[i], k) ==> Set(after[i], k))
    {
      forall i | 0 <= i < |data| ensures TornCell(before[i], data[i], NoiseAt(after, i)) == after[i] {
        TornCellIs(before[i], data[i], after[i]);
      }
      assert Torn(before, data, after) == after;
    }
  }

  lemma AndSelf(x: byte)
    ensures And(x, x) == x
  {
    hide Set, And;
    forall k: nat | k < 8 ensures Set(And(x, x), k) <==> Set(x, k) { AndIsBits(x, x, k); }
    SameBits(And(x, x), x);
  }

  /** Bits are lost exactly when a bit to be written is not there any more; writing what is there
      already loses nothing. */
  lemma LosesBitsIff(before: seq<byte>, data: seq<byte>)
    requires |data| == |before|
    ensures LosesBits(before, data) <==>
              exists i, k: nat :: 0 <= i < |data| && k < 8 && Set(data[i], k) && !Set(before[i], k)
  {
    hide Set, And;
    if LosesBits(before, data) {
      var i :| 0 <= i < |data| && And(before[i], data[i]) != data[i];
      var k := LostBit(before[i], data[i]);
    }
    if i, k: nat :| 0 <= i < |data| && k < 8 && Set(data[i], k) && !Set(before[i], k) {
      AndIsBits(before[i], data[i], k);
      assert Programmed(before, data)[i] == And(before[i], data[i]);
    }
  }

  lemma LostBit(a: byte, b: byte) returns (k: nat)
    requires And(a, b) != b
    ensures k < 8 && Set(b, k) && !Set(a, k)
  {
    hide Set, And;
    if forall j: nat :: j < 8 && Set(b, j) ==> Set(a, j) {
      forall j: nat | j < 8 ensures Set(And(a, b), j) <==> Set(b, j) { AndIsBits(a, b, j); }
      SameBits(And(a, b), b);
    }
    k :| k < 8 && Set(b, k) && !Set(a, k);
  }

  lemma RewriteLosesNothing(v: seq<byte>)
    ensures Programmed(v, v) == v && !LosesBits(v, v)
  {
    hide And;
    forall i | 0 <= i < |v| ensures And(v[i], v[i]) == v[i] { AndSelf(v[i]); }
    assert forall i :: 0 <= i < |v| ==> Programmed(v, v)[i] == And(v[i], v[i]);
  }

  // ---- words ----

  /** The word of byte `k`, or byte `k` alone if that word is not all data. */
  function Around(at: nat, len: nat, k: nat): (u: (int, int))
  {
    var w := (at + k) / 4 * 4;
    if at <= w && w + 4 <= at + len then (w - at, w + 4 - at) else (k, k + 1)
  }

  /** Where a driver that reads back stops: around the first byte that lost bits. Everything in front
      and the unit itself is programmed, and nothing behind. */
  lemma HaltedInWords(before: seq<byte>, data: seq<byte>, at: nat)
    requires |data| == |before| && LosesBits(before, data)
    ensures var (after, n) := Halted(before, data, at);
            var (from, end) := Around(at, |data|, FirstLoss(before, data));
            && |after| == |data| && n == from <= FirstLoss(before, data) < end <= |data|
            && forall i :: 0 <= i < |data| ==> after[i] == if i < end then And(before[i], data[i]) else before[i]
  {
    hide *;
    var k := FirstLoss(before, data);
    LossInside(before, data);
    HaltedIs(before, data, at);
    UnitInWords(at, |data|, k);
    FrontProgrammed(before, data, Unit(at, |data|, k).1);
  }

  lemma LossInside(before: seq<byte>, data: seq<byte>)
    requires |data| == |before| && LosesBits(before, data)
    ensures FirstLoss(before, data) < |data|
  {
    FirstLossIs(before, data);
  }

  lemma HaltedIs(before: seq<byte>, data: seq<byte>, at: nat)
    requires |data| == |before| && FirstLoss(before, data) < |data|
    ensures var (from, to) := Unit(at, |data|, FirstLoss(before, data));
            Halted(before, data, at) == (Programmed(before[..to], data[..to]) + before[to..], from)
  {
    hide FirstLoss, Programmed, Unit;
  }

  lemma FrontProgrammed(before: seq<byte>, data: seq<byte>, to: nat)
    requires |data| == |before| && to <= |data|
    ensures var after := Programmed(before[..to], data[..to]) + before[to..];
            && |after| == |data|
            && forall i :: 0 <= i < |data| ==> after[i] == if i < to then And(before[i], data[i]) else before[i]
  {
    hide And;
  }

  lemma UnitInWords(at: nat, len: nat, k: nat)
    requires k < len
    ensures Unit(at, len, k) == Around(at, len, k)
  {
    var head := (4 - at % 4) % 4;
    var q := (at + head) / 4;
    assert at + head == 4 * q;
    if k < head {
      assert (at + k) / 4 == q - 1;
    } else {
      var d, e := (k - head) / 4, (len - head) / 4;
      assert (at + k) / 4 == q + d;
      assert k - head < 4 * e <==> d < e;
      assert 4 * d + 4 <= len - head <==> d < e;
    }
  }

  // ---- sectors ----

  /** The sectors of embedded flash: four of 16 KiB, one of 64 KiB, then 128 KiB each. */
  lemma EmbeddedSectors(x: nat)
    requires x < 0x10_0000
    ensures var size := if x < 0x1_0000 then 0x4000 else if x < 0x2_0000 then 0x1_0000 else 0x2_0000;
            P.EmbeddedSector(x) == (x / size * size, x / size * size + size)
  { }

  lemma SpiSectors(x: nat)
    ensures P.Sector(SpiFlash, x) == (x / 0x1000 * 0x1000, x / 0x1000 * 0x1000 + 0x1000)
  { }

  /** An erase reaches from the beginning of the first sector to the end of the last. */
  lemma ErasedSectors(device: Device, at: nat, len: nat, size: nat)
    requires len > 0 && at + len <= size && (device == EmbeddedFlash ==> size <= 0x10_0000)
    ensures var (from, to) := Reach(P.Sectors(device), at, len, size);
            && from == P.Sector(device, at).0
            && to == if P.Sector(device, at + len - 1).1 <= size then P.Sector(device, at + len - 1).1 else size
  {
    assert P.Sectors(device)(at, len) == P.Touched(device, at, len);
  }
}
