/** YMODEM framing: what `Receive_Packet` makes of the bytes on the line. */
module Packet {
  import opened Bytes

  const PACKET_HEADER: nat := 3
  const PACKET_TRAILER: nat := 2
  const PACKET_OVERHEAD: nat := 5
  const PACKET_SIZE: nat := 128
  const PACKET_1K_SIZE: nat := 1024
  const BUFFER_SIZE: nat := 1029

  const SOH: byte := 0x01
  const STX: byte := 0x02
  const EOT: byte := 0x04
  const ACK: byte := 0x06
  const NAK: byte := 0x15
  const CA: byte := 0x18
  const CRC16: byte := 0x43
  const ABORT1: byte := 0x41
  const ABORT2: byte := 0x61

  /** One `Receive_Byte`: a byte, or the timeout. */
  datatype Tick = Silence | Got(b: byte)

  /** The line after a finite input stays silent. */
  function Head(input: seq<Tick>): Tick { if input == [] then Silence else input[0] }

  function Tail(input: seq<Tick>): (rest: seq<Tick>)
    ensures |rest| == if input == [] then 0 else |input| - 1
  {
    if input == [] then [] else input[1..]
  }

  function Ticks(s: seq<byte>): (t: seq<Tick>)
    ensures |t| == |s|
    ensures forall i :: 0 <= i < |s| ==> t[i] == Got(s[i])
  {
    seq(|s|, i requires 0 <= i < |s| => Got(s[i]))
  }

  class Uart {
    var input: seq<Tick>
    var sent: seq<byte>

    constructor (input: seq<Tick>)
      ensures this.input == input && sent == []
    {
      this.input, sent := input, [];
    }

    method ReceiveByte() returns (t: Tick)
      modifies `input
      ensures t == Head(old(input)) && input == Tail(old(input))
    {
      t, input := Head(input), Tail(input);
    }

    method SendByte(c: byte)
      modifies `sent
      ensures sent == old(sent) + [c]
    {
      sent := sent + [c];
    }
  }

  /** The return value of `Receive_Packet` and the length it reports, together. */
  datatype Reply = Failed | UserAbort | SenderAbort | EndOfFile | Received(length: nat)

  /** Stores incoming bytes from index `i` up to `end`, giving up at the first timeout. */
  function Fill(buf: seq<byte>, i: nat, end: nat, input: seq<Tick>): (r: (bool, seq<byte>, seq<Tick>))
    requires i <= end <= |buf|
    ensures |r.1| == |buf| && |r.2| <= |input|
    decreases end - i
  {
    if i == end then (true, buf, input)
    else match Head(input)
      case Silence => (false, buf, Tail(input))
      case Got(b) => Fill(buf[i := b], i + 1, end, Tail(input))
  }

  function SizeOf(start: byte): nat { if start == STX then PACKET_1K_SIZE else PACKET_SIZE }

  /** One call of `Receive_Packet`: its reply, the packet buffer, the input left. */
  function Scan(buf: seq<byte>, input: seq<Tick>): (r: (Reply, seq<byte>, seq<Tick>))
    requires |buf| == BUFFER_SIZE
    ensures |r.1| == BUFFER_SIZE
    ensures |r.2| < |input| || (input == [] && r.0.Failed?)
    ensures r.0.Received? ==> r.0.length == PACKET_SIZE || r.0.length == PACKET_1K_SIZE
  {
    var rest := Tail(input);
    match Head(input)
    case Silence => (Failed, buf, rest)
    case Got(c) =>
      if c == SOH || c == STX then
        var (ok, b, left) := Fill(buf[0 := c], 1, SizeOf(c) + PACKET_OVERHEAD, rest);
        if ok && b[1] == 255 - b[2] then (Received(SizeOf(c)), b, left) else (Failed, b, left)
      else if c == EOT then (EndOfFile, buf, rest)
      else if c == CA then (if Head(rest) == Got(CA) then SenderAbort else Failed, buf, Tail(rest))
      else if c == ABORT1 || c == ABORT2 then (UserAbort, buf, rest)
      else (Failed, buf, rest)
  }

  method ReceivePacket(uart: Uart, data: array<byte>) returns (reply: Reply)
    requires data.Length == BUFFER_SIZE
    modifies uart`input, data
    ensures (reply, data[..], uart.input) == Scan(old(data[..]), old(uart.input))
  {
    var t := uart.ReceiveByte();
    if t == Silence { return Failed; }
    var c := t.b;
    if c == EOT { return EndOfFile; }
    if c == CA {
      t := uart.ReceiveByte();
      return if t == Got(CA) then SenderAbort else Failed;
    }
    if c == ABORT1 || c == ABORT2 { return UserAbort; }
    if c != SOH && c != STX { return Failed; }
    var packetSize := SizeOf(c);
    data[0] := c;
    ghost var d0, in0 := data[..], uart.input;
    assert d0 == old(data[..])[0 := c];
    var i := 1;
    while i < packetSize + PACKET_OVERHEAD
      invariant 1 <= i <= packetSize + PACKET_OVERHEAD
      invariant Fill(data[..], i, packetSize + PACKET_OVERHEAD, uart.input) == Fill(d0, 1,
                packetSize + PACKET_OVERHEAD, in0)
    {
      ghost var before := data[..];
      t := uart.ReceiveByte();
      if t == Silence { return Failed; }
      data[i] := t.b;
      assert data[..] == before[i := t.b];
      i := i + 1;
    }
    if data[1] != 255 - data[2] { return Failed; }
    reply := Received(packetSize);
  }

  /** A packet as the protocol lays it out. */
  function Frame(number: byte, payload: seq<byte>, trailer: seq<byte>): (f: seq<byte>)
    requires |payload| == PACKET_SIZE || |payload| == PACKET_1K_SIZE
    requires |trailer| == PACKET_TRAILER
    ensures |f| == |payload| + PACKET_OVERHEAD
    ensures f[1] == number && f[PACKET_HEADER..PACKET_HEADER + |payload|] == payload
  {
    [if |payload| == PACKET_1K_SIZE then STX else SOH, number, 255 - number] + payload + trailer
  }

  lemma {:induction false} FillBytes(buf: seq<byte>, i: nat, s: seq<byte>, rest: seq<Tick>)
    requires i + |s| <= |buf|
    ensures Fill(buf, i, i + |s|, Ticks(s) + rest) == (true, buf[..i] + s + buf[i + |s|..], rest)
    decreases |s|
  {
    var input := Ticks(s) + rest;
    if s == [] {
      assert input == rest && buf == buf[..i] + s + buf[i..];
    } else {
      assert Tail(input) == Ticks(s[1..]) + rest;
      FillBytes(buf[i := s[0]], i + 1, s[1..], rest);
      assert buf[i := s[0]][..i + 1] + s[1..] + buf[i := s[0]][i + |s|..] == buf[..i] + s + buf[i + |s|..];
    }
  }

  /** A frame is received whole, whatever was in the buffer, and nothing after it is touched. */
  lemma FrameRoundTrip(buf: seq<byte>, number: byte, payload: seq<byte>, trailer: seq<byte>, rest: seq<Tick>)
    requires |buf| == BUFFER_SIZE
    requires |payload| == PACKET_SIZE || |payload| == PACKET_1K_SIZE
    requires |trailer| == PACKET_TRAILER
    ensures var f := Frame(number, payload, trailer);
            Scan(buf, Ticks(f) + rest) == (Received(|payload|), f + buf[|f|..], rest)
  {
    var f := Frame(number, payload, trailer);
    var input := Ticks(f) + rest;
    assert Tail(input) == Ticks(f[1..]) + rest;
    FillBytes(buf[0 := f[0]], 1, f[1..], rest);
    assert buf[0 := f[0]][..1] + f[1..] + buf[0 := f[0]][|f|..] == f + buf[|f|..];
  }

  lemma TicksFirst(b: seq<byte>, i: nat, end: nat, rest: seq<Tick>)
    requires i < end <= |b|
    ensures Ticks(b[i..end]) + rest == [Got(b[i])] + (Ticks(b[i + 1..end]) + rest)
  { }

  lemma KeptFront(buf: seq<byte>, b: seq<byte>, i: nat, c: byte)
    requires i < |buf| == |b| && b[..i + 1] == buf[i := c][..i + 1]
    ensures b[..i] == buf[..i] && b[i] == c
  {
    assert b[i] == b[..i + 1][i];
    assert b[..i] == b[..i + 1][..i] && buf[..i] == buf[i := c][..i + 1][..i];
  }

  lemma {:induction false} FilledFrom(buf: seq<byte>, i: nat, end: nat, input: seq<Tick>)
    requires i <= end <= |buf| && Fill(buf, i, end, input).0
    ensures var (_, b, rest) := Fill(buf, i, end, input);
            b[..i] == buf[..i] && b[end..] == buf[end..] && input == Ticks(b[i..end]) + rest
    decreases end - i
  {
    hide Ticks;
    var (_, b, rest) := Fill(buf, i, end, input);
    if i == end {
      NoTicks(b, i, rest);
    } else {
      var c := Head(input).b;
      FilledFrom(buf[i := c], i + 1, end, Tail(input));
      KeptFront(buf, b, i, c);
      TicksFirst(b, i, end, rest);
      assert buf[i := c][end..] == buf[end..];
      assert input == [Got(c)] + Tail(input);
    }
  }

  lemma NoTicks(b: seq<byte>, i: nat, rest: seq<Tick>)
    requires i <= |b|
    ensures Ticks(b[i..i]) + rest == rest
  { }

  lemma FrameOf(s: seq<byte>, n: nat)
    requires (n == PACKET_SIZE && s != [] && s[0] == SOH) || (n == PACKET_1K_SIZE && s != [] && s[0] == STX)
    requires |s| == n + PACKET_OVERHEAD && s[1] == 255 - s[2]
    ensures s == Frame(s[1], s[PACKET_HEADER..PACKET_HEADER + n], s[PACKET_HEADER + n..])
  { }

  lemma ReceivedFrom(buf: seq<byte>, input: seq<Tick>)
    requires |buf| == BUFFER_SIZE && Scan(buf, input).0.Received?
    ensures var (reply, b, rest) := Scan(buf, input);
            var end := reply.length + PACKET_OVERHEAD;
            && end <= BUFFER_SIZE && b[end..] == buf[end..] && input == Ticks(b[..end]) + rest
            && b[0] == (if reply.length == PACKET_1K_SIZE then STX else SOH) && b[1] == 255 - b[2]
  {
    hide Ticks, Fill;
    var (reply, b, rest) := Scan(buf, input);
    var end, c := reply.length + PACKET_OVERHEAD, Head(input).b;
    FilledFrom(buf[0 := c], 1, end, Tail(input));
    KeptFront(buf, b, 0, c);
    TicksFirst(b, 0, end, rest);
    assert b[0..end] == b[..end] && buf[0 := c][end..] == buf[end..];
    assert input == [Got(c)] + Tail(input);
  }

  /** Only a frame with a matching complement is received: the trailer is never looked at. */
  lemma OnlyFramesReceived(buf: seq<byte>, input: seq<Tick>)
    requires |buf| == BUFFER_SIZE && Scan(buf, input).0.Received?
    ensures var (reply, b, rest) := Scan(buf, input);
            var n := reply.length;
            && b[..n + PACKET_OVERHEAD] == Frame(b[1], b[PACKET_HEADER..PACKET_HEADER + n],
                b[PACKET_HEADER + n..PACKET_OVERHEAD + n])
            && b[n + PACKET_OVERHEAD..] == buf[n + PACKET_OVERHEAD..]
            && input == Ticks(b[..n + PACKET_OVERHEAD]) + rest
  {
    hide Scan, Ticks, Frame;
    ReceivedFrom(buf, input);
    var b, n := Scan(buf, input).1, Scan(buf, input).0.length;
    var s := b[..n + PACKET_OVERHEAD];
    FrameOf(s, n);
    SliceOfSlice(b, |s|, PACKET_HEADER, PACKET_HEADER + n);
    SliceOfSlice(b, |s|, PACKET_HEADER + n, |s|);
  }
}
