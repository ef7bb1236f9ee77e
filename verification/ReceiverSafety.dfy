/** What holds of the receiver on every input stream, any flash behaviour, any number of files. */
module ReceiverSafety {
  import opened Bytes
  import opened Numerals
  import opened Packet
  import opened Receiver

  /** Packets accepted since the current file began. */
  function Position(log: seq<Event>): nat {
    if log == [] then 0
    else match log[|log| - 1]
      case Opened(_, _) => 1 + Position(log[..|log| - 1])
      case Stored(_, _, _) => 1 + Position(log[..|log| - 1])
      case Closed => 0
      case Ended => 0
      case Cancelled => 0
  }

  /** All payload bytes stored, over all files. */
  function StoredBytes(log: seq<Event>): seq<byte> {
    if log == [] then []
    else
      var last := log[|log| - 1];
      StoredBytes(log[..|log| - 1]) + if last.Stored? then last.payload else []
  }

  /** An event that may follow `log`: numbers run 0, 1, 2, ... modulo 256 within a file, the
      erase comes first, and each write goes where the previous one ended. */
  predicate Follows(log: seq<Event>, start: nat, e: Event) {
    match e
    case Opened(wire, at) => Position(log) == 0 && wire == 0 && at == start + |StoredBytes(log)|
    case Stored(wire, at, payload) =>
      Position(log) > 0 && wire == Position(log) % 256 && at == start + |StoredBytes(log)| && payload != []
    case Closed => true
    case Ended => Position(log) == 0
    case Cancelled => true
  }

  predicate InOrder(log: seq<Event>, start: nat) {
    log == [] || (InOrder(log[..|log| - 1], start) && Follows(log[..|log| - 1], start, log[|log| - 1]))
  }

  function Acks(out: seq<byte>): nat {
    if out == [] then 0 else Acks(out[..|out| - 1]) + if out[|out| - 1] == ACK then 1 else 0
  }

  ghost predicate AnyOpened(log: seq<Event>) { exists k :: 0 <= k < |log| && log[k].Opened? }

  lemma AcksAppend(out: seq<byte>, b: byte)
    ensures Acks(out + [b]) == Acks(out) + if b == ACK then 1 else 0
  {
    assert (out + [b])[..|out|] == out;
  }

  lemma AcksAppendTwo(out: seq<byte>, a: byte, b: byte)
    ensures Acks(out + [a, b]) == Acks(out) + (if a == ACK then 1 else 0) + (if b == ACK then 1 else 0)
  {
    assert out + [a, b] == (out + [a]) + [b];
    AcksAppend(out, a);
    AcksAppend(out + [a], b);
  }

  lemma LogAppend(log: seq<Event>, start: nat, e: Event)
    ensures InOrder(log + [e], start) <==> InOrder(log, start) && Follows(log, start, e)
    ensures Position(log + [e]) == (if e.Opened? || e.Stored? then 1 + Position(log) else 0)
    ensures StoredBytes(log + [e]) == StoredBytes(log) + (if e.Stored? then e.payload else [])
    ensures AnyOpened(log + [e]) <==> AnyOpened(log) || e.Opened?
  {
    assert (log + [e])[..|log|] == log;
    assert (log + [e])[|log|] == e;
    if AnyOpened(log) {
      var k :| 0 <= k < |log| && log[k].Opened?;
      assert (log + [e])[k].Opened?;
    }
  }

  /** The invariant of the whole run. */
  ghost predicate Safe(rx: Rx, start: nat) {
    && Wf(rx)
    && InOrder(rx.log, start)
    && rx.dest == start + |StoredBytes(rx.log)|
    && Acks(rx.out) == |rx.log|
    && rx.errors <= MAX_ERRORS + 1
    && (rx.result.None? ==> rx.errors <= MAX_ERRORS && rx.received == Position(rx.log))
    && (rx.begun <==> AnyOpened(rx.log))
    && (rx.received > 0 ==> rx.begun)
  }

  lemma OpenSafe(cfg: Config, rx: Rx, start: nat)
    requires Safe(rx, start) && rx.result.None? && rx.received == 0 && rx.packet[1] == 0
    ensures Safe(OpenFile(cfg, rx), start)
  {
    AcksAppendTwo(rx.out, CA, CA);
    AcksAppendTwo(rx.out, ACK, CRC16);
    LogAppend(rx.log, start, Opened(rx.packet[1], rx.dest));
  }

  lemma StoreSafe(cfg: Config, rx: Rx, length: nat, start: nat)
    requires Safe(rx, start) && rx.result.None? && rx.received > 0 && rx.packet[1] == rx.received % 256
    requires length > 0 && PACKET_HEADER + length <= BUFFER_SIZE
    ensures Safe(StoreData(cfg, rx, length), start)
  {
    AcksAppend(rx.out, ACK);
    AcksAppendTwo(rx.out, CA, CA);
    LogAppend(rx.log, start, Stored(rx.packet[1], rx.dest, rx.packet[PACKET_HEADER..PACKET_HEADER + length]));
  }

  lemma PacketSafe(cfg: Config, rx: Rx, length: nat, start: nat)
    requires Safe(rx, start) && rx.result.None?
    requires length > 0 && PACKET_HEADER + length <= BUFFER_SIZE
    ensures Safe(OnPacket(cfg, rx, length), start)
  {
    if rx.packet[1] != rx.received % 256 { AcksAppend(rx.out, NAK); }
    else if rx.received > 0 { StoreSafe(cfg, rx, length, start); }
    else if rx.packet[PACKET_HEADER] != 0 { OpenSafe(cfg, rx, start); }
    else { AcksAppend(rx.out, ACK); LogAppend(rx.log, start, Ended); }
  }

  lemma HandleSafe(cfg: Config, rx: Rx, reply: Reply, start: nat)
    requires Safe(rx, start) && rx.result.None?
    requires reply.Received? ==> reply.length > 0 && PACKET_HEADER + reply.length <= BUFFER_SIZE
    ensures Safe(Handle(cfg, rx, reply), start)
  {
    match reply
    case Failed =>
      AcksAppendTwo(rx.out, CA, CA);
      AcksAppend(rx.out, CRC16);
    case UserAbort =>
      AcksAppendTwo(rx.out, CA, CA);
    case SenderAbort =>
      AcksAppend(rx.out, ACK);
      LogAppend(rx.log, start, Cancelled);
    case EndOfFile =>
      AcksAppend(rx.out, ACK);
      LogAppend(rx.log, start, Closed);
    case Received(length) =>
      PacketSafe(cfg, rx.(errors := 0), length, start);
  }

  /** Safety of every run. A run that has accepted a header ends, with at most
      `MAX_ERRORS + 1` errors counted. */
  lemma {:induction false} RunSafe(cfg: Config, rx: Rx, input: seq<Tick>, start: nat)
    requires Safe(rx, start)
    ensures var end := Run(cfg, rx, input);
            Safe(end, start) && (AnyOpened(end.log) ==> end.result.Some?)
    decreases |input|, Patience(rx)
  {
    if !(rx.result.Some? || (input == [] && !rx.begun)) {
      var (reply, packet, rest) := Scan(rx.packet, input);
      var rx1 := rx.(packet := packet);
      HandleSafe(cfg, rx1, reply, start);
      RunSafe(cfg, Handle(cfg, rx1, reply), rest, start);
    }
  }
}
