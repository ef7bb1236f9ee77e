/** The YMODEM receiver: `Ymodem_Receive`. */
module Receiver {
  import opened Bytes
  import opened FlashMemory
  import opened Numerals
  import opened Packet
  import opened Block0

  const MAX_ERRORS: nat := 20

  /** The device being written, as the receiver's own state sees it. */
  datatype Chip = Chip(mem: seq<byte>, calls: nat, powered: bool)

  /** How the device behaves, which sectors an erase touches, and how many bytes the caller
      grants (`maxRecvSize`). */
  datatype Config = Config(script: Script, sectors: Sweep, readsBack: bool, max: nat)

  /** What the receiver has acknowledged, in order. */
  datatype Event =
    | Opened(wire: byte, at: nat)
    | Stored(wire: byte, at: nat, payload: seq<byte>)
    | Closed
    | Ended
    | Cancelled

  /** The variables of `Ymodem_Receive`, what it has sent, and the acknowledged events. */
  datatype Rx = Rx(received: nat, errors: nat, begun: bool, size: int, dest: nat,
                   packet: seq<byte>, sizeText: seq<byte>, out: seq<byte>, chip: Chip, log: seq<Event>,
                       result: Option<int>)

  ghost predicate Wf(rx: Rx) {
    |rx.packet| == BUFFER_SIZE && |rx.sizeText| == FILE_SIZE_LENGTH + 1
  }

  function ChipErase(cfg: Config, c: Chip, at: nat, len: nat): Chip {
    if at + len > |c.mem| || !c.powered then c
    else
      var (from, to) := Reach(cfg.sectors, at, len, |c.mem|);
      var o := OutcomeOf(cfg.script, c.calls);
      if from == to then c
      else Chip(AfterSweep(c.mem, cfg.sectors, at, len, o, false), c.calls + 1, !o.PowerLost?)
  }

  predicate ChipNotices(cfg: Config, c: Chip, at: nat, data: seq<byte>)
    requires at + |data| <= |c.mem|
  {
    cfg.readsBack && OutcomeOf(cfg.script, c.calls).Works? && LosesBits(c.mem[at..at + |data|], data)
  }

  function ChipWrite(cfg: Config, c: Chip, at: nat, data: seq<byte>): (r: (bool, Chip)) {
    if at + |data| > |c.mem| || !c.powered then (false, c)
    else if ChipNotices(cfg, c, at, data) then (false, Chip(AfterHalt(c.mem, at, data), c.calls + 1, true))
    else
      var o := OutcomeOf(cfg.script, c.calls);
      (Succeeds(o), Chip(AfterWrite(c.mem, at, data, o), c.calls + 1, !o.PowerLost?))
  }

  /** Takes the size from the header packet. */
  function ReadSize(rx: Rx): Rx
    requires Wf(rx)
  {
    rx.(size := ParsedSize(rx.packet, rx.sizeText, rx.size),
        sizeText := CutText(rx.packet, PACKET_HEADER + NameLength(rx.packet) + 1, 32, rx.sizeText))
  }

  /** Opens the file unless it is too big. The comparison is signed, and lets one byte too many
      through. */
  function Grant(cfg: Config, rx: Rx): Rx
    requires Wf(rx)
  {
    if rx.size > cfg.max + 1 then rx.(out := rx.out + [CA, CA], result := Some(-1))
    else rx.(received := 1, begun := true, out := rx.out + [ACK, CRC16],
             chip := ChipErase(cfg, rx.chip, rx.dest, cfg.max), log := rx.log + [Opened(rx.packet[1], rx.dest)])
  }

  function OpenFile(cfg: Config, rx: Rx): Rx
    requires Wf(rx)
  {
    Grant(cfg, ReadSize(rx))
  }

  function StoreData(cfg: Config, rx: Rx, length: nat): Rx
    requires Wf(rx) && PACKET_HEADER + length <= BUFFER_SIZE
  {
    var payload := rx.packet[PACKET_HEADER..PACKET_HEADER + length];
    var (ok, chip) := ChipWrite(cfg, rx.chip, rx.dest, payload);
    if ok then
      rx.(received := rx.received + 1, begun := true, dest := rx.dest + length, out := rx.out + [ACK], chip := chip,
          log := rx.log + [Stored(rx.packet[1], rx.dest, payload)])
    else rx.(out := rx.out + [CA, CA], chip := chip, result := Some(-2))
  }

  function OnPacket(cfg: Config, rx: Rx, length: nat): Rx
    requires Wf(rx) && PACKET_HEADER + length <= BUFFER_SIZE
  {
    if rx.packet[1] != rx.received % 256 then rx.(out := rx.out + [NAK])
    else if rx.received > 0 then StoreData(cfg, rx, length)
    else if rx.packet[PACKET_HEADER] != 0 then OpenFile(cfg, rx)
    else rx.(out := rx.out + [ACK], log := rx.log + [Ended], result := Some(rx.size))
  }

  /** One turn of the packet loop, given what `Receive_Packet` reported. */
  function Handle(cfg: Config, rx: Rx, reply: Reply): Rx
    requires Wf(rx) && (reply.Received? ==> PACKET_HEADER + reply.length <= BUFFER_SIZE)
  {
    match reply
    case Failed =>
      var errors := if rx.begun then rx.errors + 1 else rx.errors;
      if errors > MAX_ERRORS then rx.(errors := errors, out := rx.out + [CA, CA], result := Some(0))
      else rx.(errors := errors, out := rx.out + [CRC16])
    case UserAbort => rx.(out := rx.out + [CA, CA], result := Some(-3))
    case SenderAbort => rx.(errors := 0, out := rx.out + [ACK], log := rx.log + [Cancelled], result := Some(0))
    case EndOfFile => rx.(errors := 0, out := rx.out + [ACK], received := 0, log := rx.log + [Closed])
    case Received(length) => OnPacket(cfg, rx.(errors := 0), length)
  }

  lemma OpenFileWf(cfg: Config, rx: Rx)
    requires Wf(rx)
    ensures Wf(OpenFile(cfg, rx))
  {
    hide ParsedSize, CutText, NameLength, ChipErase;
  }

  lemma StoreDataWf(cfg: Config, rx: Rx, length: nat)
    requires Wf(rx) && PACKET_HEADER + length <= BUFFER_SIZE
    ensures Wf(StoreData(cfg, rx, length))
  {
    hide ChipWrite;
  }

  lemma OnPacketWf(cfg: Config, rx: Rx, length: nat)
    requires Wf(rx) && PACKET_HEADER + length <= BUFFER_SIZE
    ensures Wf(OnPacket(cfg, rx, length))
  {
    hide OpenFile, StoreData;
    OpenFileWf(cfg, rx);
    StoreDataWf(cfg, rx, length);
  }

  lemma HandleWf(cfg: Config, rx: Rx, reply: Reply)
    requires Wf(rx) && (reply.Received? ==> PACKET_HEADER + reply.length <= BUFFER_SIZE)
    ensures Wf(Handle(cfg, rx, reply))
  {
    hide OnPacket;
    if reply.Received? { OnPacketWf(cfg, rx.(errors := 0), reply.length); }
  }

  /** How many more silent turns a running receiver can take once a file has begun. */
  function Patience(rx: Rx): nat {
    if rx.result.Some? then 0 else if rx.errors > MAX_ERRORS then 1 else MAX_ERRORS + 2 - rx.errors
  }

  /** The whole run on a finite input followed by silence. Before the first file a silent line
      keeps the receiver polling for ever: there the run is left unfinished. */
  function Run(cfg: Config, rx: Rx, input: seq<Tick>): Rx
    requires Wf(rx)
    decreases |input|, Patience(rx)
  {
    if rx.result.Some? || (input == [] && !rx.begun) then rx
    else
      var (reply, packet, rest) := Scan(rx.packet, input);
      HandleWf(cfg, rx.(packet := packet), reply);
      Run(cfg, Handle(cfg, rx.(packet := packet), reply), rest)
  }

  lemma RunUnfolds(cfg: Config, rx: Rx, input: seq<Tick>)
    requires Wf(rx) && rx.result.None? && (input != [] || rx.begun)
    ensures var (reply, packet, rest) := Scan(rx.packet, input);
            Wf(Handle(cfg, rx.(packet := packet), reply)) &&
            Run(cfg, rx, input) == Run(cfg, Handle(cfg, rx.(packet := packet), reply), rest)
  {
    var (reply, packet, rest) := Scan(rx.packet, input);
    HandleWf(cfg, rx.(packet := packet), reply);
  }
}
