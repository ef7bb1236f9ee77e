/** How a file is cut into 1024- and 128-byte blocks, the last one padded. */
module Blocks {
  import opened Bytes
  import opened Packet

  const PAD: byte := 0x1A

  function BlockSize(remaining: nat): nat {
    if remaining >= PACKET_1K_SIZE then PACKET_1K_SIZE else PACKET_SIZE
  }

  function Min(a: nat, b: nat): nat { if a < b then a else b }

  /** The block that starts at `at`. */
  function Payload(file: seq<byte>, at: nat): (p: seq<byte>)
    requires at < |file|
    ensures |p| == BlockSize(|file| - at)
  {
    var size := Min(|file| - at, BlockSize(|file| - at));
    file[at..at + size] + Repeat(PAD, BlockSize(|file| - at) - size)
  }

  function RoundUp(n: nat): (r: nat)
    ensures n <= r < n + 128
  {
    (n + 127) / 128 * 128
  }

  function Padded(file: seq<byte>): (p: seq<byte>)
    ensures |p| == RoundUp(|file|)
  {
    file + Repeat(PAD, RoundUp(|file|) - |file|)
  }

  /** Where block `k` starts in a file of `n` bytes; blocks are numbered from 1. */
  function Start(n: nat, k: nat): (at: nat)
    decreases k
  {
    if k <= 1 then 0
    else
      var before := Start(n, k - 1);
      if before < n then before + BlockSize(n - before) else before
  }

  lemma {:induction false} StartAligned(n: nat, k: nat)
    ensures Start(n, k) % 128 == 0
    decreases k
  {
    if k > 1 { StartAligned(n, k - 1); }
  }

  function BlockCount(remaining: nat): (c: nat)
    ensures c == 0 <==> remaining == 0
    decreases remaining
  {
    if remaining == 0 then 0 else 1 + BlockCount(remaining - Min(remaining, BlockSize(remaining)))
  }

  lemma CountStep(n: nat)
    ensures n >= 1024 ==> n / 1024 == 1 + (n - 1024) / 1024 && n % 1024 == (n - 1024) % 1024
    ensures 128 < n < 1024 ==> (n + 127) / 128 == 1 + (n - 128 + 127) / 128
    ensures 0 < n <= 128 ==> (n + 127) / 128 == 1
    ensures n < 1024 ==> n / 1024 == 0 && n % 1024 == n
  { }

  lemma {:induction false} BlockCountFormula(n: nat)
    ensures BlockCount(n) == n / 1024 + (n % 1024 + 127) / 128
    decreases n
  {
    CountStep(n);
    var m := n - Min(n, BlockSize(n));
    if n > 0 {
      BlockCountFormula(m);
      CountStep(m);
      assert BlockCount(n) == 1 + BlockCount(m);
    }
  }

  /** Each block is the matching slice of the padded file. */
  lemma PayloadIsSlice(file: seq<byte>, at: nat)
    requires at < |file| && at % 128 == 0
    ensures at + BlockSize(|file| - at) <= |Padded(file)|
    ensures Payload(file, at) == Padded(file)[at..at + BlockSize(|file| - at)]
  {
    var size := BlockSize(|file| - at);
    var r := RoundUp(|file|);
    assert r >= at + size by {
      if |file| - at < PACKET_1K_SIZE { assert r / 128 > at / 128; }
    }
  }

  lemma StartAt(n: nat, k: nat)
    requires k > 0 && Start(n, k) < n
    ensures Start(n, k + 1) == Start(n, k) + BlockSize(n - Start(n, k)) <= RoundUp(n)
  {
    var at := Start(n, k);
    StartAligned(n, k);
    assert RoundUp(n) % 128 == 0;
    if n - at < PACKET_1K_SIZE { assert RoundUp(n) / 128 > at / 128; }
  }

  /** The blocks from `k` on are as many as the remaining bytes need. */
  lemma {:induction false} BlocksLeft(n: nat, k: nat)
    requires 1 <= k <= BlockCount(n)
    ensures Start(n, k) < n && BlockCount(n) == k - 1 + BlockCount(n - Start(n, k))
    decreases k
  {
    if k > 1 { BlocksLeft(n, k - 1); }
  }

  lemma NoRoomLeft(n: nat, at: nat)
    requires at % 128 == 0 && n <= at <= RoundUp(n)
    ensures at == RoundUp(n)
  { }

  lemma OneBlockLeft(m: nat)
    requires BlockCount(m) == 1
    ensures 0 < m <= BlockSize(m)
  { }

  lemma LastBlockEnds(n: nat)
    ensures Start(n, 1 + BlockCount(n)) == RoundUp(n)
  {
    hide Start, RoundUp;
    if n == 0 {
      NothingToSend();
    } else {
      var k := BlockCount(n);
      BlocksLeft(n, k);
      OneBlockLeft(n - Start(n, k));
      StartAt(n, k);
      StartAligned(n, k + 1);
      NoRoomLeft(n, Start(n, k + 1));
    }
  }

  lemma NothingToSend()
    ensures Start(0, 1) == 0 == RoundUp(0)
  { }

  /** The blocks of `file` from `at` on, in order. */
  function Cut(file: seq<byte>, at: nat): seq<seq<byte>>
    decreases |file| - at
  {
    if at >= |file| then [] else [Payload(file, at)] + Cut(file, at + BlockSize(|file| - at))
  }

  function Flatten(blocks: seq<seq<byte>>): seq<byte> {
    if blocks == [] then [] else blocks[0] + Flatten(blocks[1..])
  }

  /** Cutting a file yields as many blocks as the formula says, and they make up the padded file. */
  lemma {:induction false} CutMakesUpPadded(file: seq<byte>, at: nat)
    requires at % 128 == 0 && at <= |Padded(file)|
    ensures Flatten(Cut(file, at)) == Padded(file)[at..]
    ensures |Cut(file, at)| == BlockCount(if at < |file| then |file| - at else 0)
    decreases |file| - at
  {
    var padded := Padded(file);
    if at < |file| {
      PayloadIsSlice(file, at);
      var to := at + BlockSize(|file| - at);
      CutMakesUpPadded(file, to);
      assert Cut(file, at)[1..] == Cut(file, to);
      assert padded[at..] == padded[at..to] + padded[to..];
    } else {
      NoRoomLeft(|file|, at);
    }
  }

  /** Reads part of the file into the packet buffer behind the three header bytes. */
  method ReadInto(file: seq<byte>, at: nat, data: array<byte>, size: nat)
    requires at + size <= |file| && PACKET_HEADER + size <= data.Length
    modifies data
    ensures data[..PACKET_HEADER] == old(data[..PACKET_HEADER])
    ensures data[PACKET_HEADER..PACKET_HEADER + size] == file[at..at + size]
  {
    forall k | PACKET_HEADER <= k < PACKET_HEADER + size { data[k] := file[at + k - PACKET_HEADER]; }
  }

  method PadFrom(data: array<byte>, from: nat, to: nat)
    requires from <= to <= data.Length
    modifies data
    ensures data[..from] == old(data[..from]) && data[from..to] == Repeat(PAD, to - from)
  {
    var i := from;
    while i < to
      invariant from <= i <= to && data[..from] == old(data[..from])
      invariant forall k :: from <= k < i ==> data[k] == PAD
    {
      data[i] := PAD;
      i := i + 1;
    }
  }

  /** `Ymodem_PreparePacket` for the `sizeBlk` bytes of `file` from `at` on. */
  method PreparePacket(file: seq<byte>, at: nat, data: array<byte>, pktNo: byte, sizeBlk: nat)
    requires at < |file| && sizeBlk == |file| - at && data.Length == BUFFER_SIZE
    modifies data
    ensures data[..PACKET_HEADER + BlockSize(sizeBlk)] ==
              [if BlockSize(sizeBlk) == PACKET_1K_SIZE then STX else SOH, pktNo, 255 - pktNo] + Payload(file, at)
  {
    var packetSize := if sizeBlk >= PACKET_1K_SIZE then PACKET_1K_SIZE else PACKET_SIZE;
    var size := if sizeBlk < packetSize then sizeBlk else packetSize;
    data[0] := if packetSize == PACKET_1K_SIZE then STX else SOH;
    data[1], data[2] := pktNo, 255 - pktNo;
    ghost var head := data[..PACKET_HEADER];
    ReadInto(file, at, data, size);
    assert data[..PACKET_HEADER + size] == head + file[at..at + size];
    PadFrom(data, PACKET_HEADER + size, PACKET_HEADER + packetSize);
    assert data[..PACKET_HEADER + packetSize]
        == data[..PACKET_HEADER + size] + data[PACKET_HEADER + size..PACKET_HEADER + packetSize];
  }
}
