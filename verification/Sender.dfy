/** The YMODEM sender: `Ymodem_Transmit`. */
module Sender {
  import opened Bytes
  import opened Numerals
  import opened Packet
  import opened Blocks
  import opened Checksums

  const TRIES: nat := 10

  /** Where `Ymodem_Transmit` is. `Await` is the single byte it reads between the header and
      the data; `Data` carries the offset and the number of the block being sent. */
  datatype Phase = Announce | Await | Data(at: nat, block: nat) | EndFile | EndSession | LastEnd

  datatype Tx = Tx(phase: Phase, errors: nat, out: seq<byte>, result: Option<nat>)

  /** What is sent: the prepared header packet and the file. */
  datatype Job = Job(header: seq<byte>, file: seq<byte>)

  ghost predicate GoodJob(job: Job) {
    |job.header| == PACKET_SIZE + PACKET_HEADER && job.header[..PACKET_HEADER] == [SOH, 0, 0xFF]
  }

  /** A data phase is inside the file. */
  ghost predicate WfTx(job: Job, tx: Tx) {
    GoodJob(job) && (tx.phase.Data? ==> tx.phase.at < |job.file|)
  }

  function Trailer(payload: seq<byte>): (t: seq<byte>)
    ensures |t| == PACKET_TRAILER
  {
    var crc := Crc16(payload);
    [crc / 256, crc % 256]
  }

  function EmptyHeader(): (f: seq<byte>)
    ensures |f| == PACKET_SIZE + PACKET_OVERHEAD
  {
    Frame(0, Repeat(0, PACKET_SIZE), Trailer(Repeat(0, PACKET_SIZE)))
  }

  /** What goes on the line before the next byte is read. */
  function Message(job: Job, tx: Tx): seq<byte>
    requires WfTx(job, tx)
  {
    match tx.phase
    case Announce => job.header + Trailer(job.header[PACKET_HEADER..])
    case Await => []
    case Data(at, block) =>
      var payload := Payload(job.file, at);
      Frame(block % 256, payload, Trailer(payload))
    case EndFile => [EOT]
    case EndSession => EmptyHeader()
    case LastEnd => [EOT]
  }

  /** A failed attempt: ten of them end the transfer. */
  function Missed(tx: Tx): Tx {
    tx.(errors := tx.errors + 1, result := if tx.errors + 1 >= TRIES then Some(tx.errors + 1) else None)
  }

  function Enter(tx: Tx, phase: Phase): Tx { tx.(phase := phase, errors := 0) }

  /** What follows the header, or the block at `at`. */
  function NextBlock(job: Job, at: nat, block: nat): Phase {
    if at < |job.file| then Data(at, block) else EndFile
  }

  /** The reaction to the byte read, or to the timeout. While a header is being sent a byte
      that is no ACK is not counted as an error. When `LastEnd` is reached the flag that ends
      its loop is still set from the header before it, so it is sent once, answered or not. */
  function React(job: Job, tx: Tx, tick: Tick): Tx
    requires WfTx(job, tx)
  {
    match tx.phase
    case Announce =>
      if tick == Got(ACK) then tx.(phase := Await) else if tick.Got? then tx else Missed(tx)
    case Await => Enter(tx, NextBlock(job, 0, 1))
    case Data(at, block) =>
      if tick == Got(ACK) then Enter(tx, NextBlock(job, at + BlockSize(|job.file| - at), block + 1)) else Missed(tx)
    case EndFile =>
      if tick == Got(ACK) then Enter(tx, EndSession) else Missed(tx)
    case EndSession =>
      if tick == Got(ACK) then tx.(phase := LastEnd) else if tick.Got? then tx else Missed(tx)
    case LastEnd =>
      if tick == Got(ACK) || tx.errors + 1 < TRIES then tx.(result := Some(0)) else Missed(tx)
  }

  function Turn(job: Job, tx: Tx, tick: Tick): Tx
    requires WfTx(job, tx)
  {
    React(job, tx.(out := tx.out + Message(job, tx)), tick)
  }

  function Rank(phase: Phase): nat {
    match phase
    case Announce => 5 case Await => 4 case Data(_, _) => 3 case EndFile => 2 case EndSession => 1 case LastEnd => 0
  }

  function Budget(tx: Tx): nat {
    if tx.result.Some? then 0 else 1 + 20 * Rank(tx.phase) + if tx.errors < TRIES then TRIES - tx.errors else 0
  }

  /** The whole run against the bytes of `input`, then silence. */
  function Run(job: Job, tx: Tx, input: seq<Tick>): Tx
    requires WfTx(job, tx)
    decreases |input|, Budget(tx)
  {
    if tx.result.Some? then tx else Run(job, Turn(job, tx, Head(input)), Tail(input))
  }

  /** The step that leaves a phase also ends it for the retry count. */
  lemma RunUnfolds(job: Job, tx: Tx, input: seq<Tick>)
    requires WfTx(job, tx) && tx.result.None?
    ensures WfTx(job, Turn(job, tx, Head(input)))
    ensures Run(job, tx, input) == Run(job, Turn(job, tx, Head(input)), Tail(input))
  { }

  // ---- the data phase against any responder ----

  /** Attempts left at most in the data phase: ten for each block still to be acknowledged. */
  function Attempts(job: Job, tx: Tx): int {
    if tx.result.None? && tx.phase.Data? && tx.phase.at < |job.file|
    then TRIES * BlockCount(|job.file| - tx.phase.at) - tx.errors else 0
  }

  /** In the data phase every acknowledged byte is behind the offset, the block number counts
      the blocks, and no block is sent more than ten times. */
  ghost predicate DataWf(job: Job, tx: Tx) {
    WfTx(job, tx) && (tx.result.None? && tx.phase.Data? ==>
      && tx.errors < TRIES
      && tx.phase.block >= 1 && tx.phase.at == Start(|job.file|, tx.phase.block))
  }

  lemma OneBlockFewer(n: nat, at: nat, block: nat)
    requires block >= 1 && at == Start(n, block) && at < n
    ensures Start(n, block + 1) == at + BlockSize(n - at)
    ensures BlockCount(n - at) == 1 + if at + BlockSize(n - at) < n then BlockCount(n - (at + BlockSize(n - at))) else 0
  { }

  lemma ReactDataWf(job: Job, tx: Tx, tick: Tick)
    requires DataWf(job, tx) && tx.result.None?
    ensures DataWf(job, React(job, tx, tick))
    ensures tx.phase.Data? ==> Attempts(job, React(job, tx, tick)) < Attempts(job, tx)
  {
    hide BlockCount, GoodJob, BlockSize;
    match tx.phase
    case Data(at, block) => OneBlockFewer(|job.file|, at, block);
    case Announce =>
    case Await =>
    case EndFile =>
    case EndSession =>
    case LastEnd =>
  }

  lemma TurnDataWf(job: Job, tx: Tx, tick: Tick)
    requires DataWf(job, tx) && tx.result.None?
    ensures DataWf(job, Turn(job, tx, tick))
    ensures tx.phase.Data? ==> Attempts(job, Turn(job, tx, tick)) < Attempts(job, tx)
  {
    hide React, Message, BlockCount, Start;
    ReactDataWf(job, tx.(out := tx.out + Message(job, tx)), tick);
  }

  function Turns(job: Job, tx: Tx, ticks: seq<Tick>): Tx
    requires DataWf(job, tx)
    decreases |ticks|
  {
    if ticks == [] || tx.result.Some? || !tx.phase.Data? then tx
    else
      TurnDataWf(job, tx, ticks[0]);
      Turns(job, Turn(job, tx, ticks[0]), ticks[1..])
  }

  /** Whatever the other side answers, the data phase is left after at most ten sends per
      remaining block: either every block was acknowledged or one block failed ten times. */
  lemma {:induction false} DataPhaseEnds(job: Job, tx: Tx, ticks: seq<Tick>)
    requires DataWf(job, tx) && |ticks| >= Attempts(job, tx)
    ensures var end := Turns(job, tx, ticks);
            end.result.Some? || !end.phase.Data?
    decreases |ticks|
  {
    if ticks != [] && tx.result.None? && tx.phase.Data? {
      TurnDataWf(job, tx, ticks[0]);
      DataPhaseEnds(job, Turn(job, tx, ticks[0]), ticks[1..]);
    }
  }
}
