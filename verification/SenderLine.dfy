/** What the sender puts on the line, byte by byte and packet by packet. */
module SenderLine {
  import opened Bytes
  import opened Numerals
  import opened Packet
  import opened Blocks
  import opened Checksums
  import opened Polynomials
  import opened CrcLaws
  import opened Sender

  /** A packet as any YMODEM receiver wants it: start byte, number and complement, payload, and a
      trailer that makes payload and trailer a multiple of x^16 + x^12 + x^5 + 1. */
  ghost predicate GoodPacket(p: seq<byte>, number: byte, payload: seq<byte>) {
    && (|payload| == 128 || |payload| == 1024) && |p| == |payload| + 5
    && p[0] == (if |payload| == 1024 then 0x02 else 0x01) && p[1] == number && p[2] == 255 - p[1]
    && p[3..3 + |payload|] == payload && Remainder(BitsOf(p[3..])) == Zeros(16)
  }

  /** There is one such packet only. */
  lemma OnePacket(p: seq<byte>, q: seq<byte>, number: byte, payload: seq<byte>)
    requires GoodPacket(p, number, payload) && GoodPacket(q, number, payload)
    ensures p == q
  {
    hide Remainder, BitsOf;
    var n := |payload|;
    var s, t := p[3 + n..], q[3 + n..];
    assert p[3..] == payload + s && q[3..] == payload + t;
    TrailerOf(payload, s);
    TrailerOf(payload, t);
    BitsInjective(s, t);
    assert p == [p[0], p[1], p[2]] + payload + s && q == [q[0], q[1], q[2]] + payload + t;
  }

  lemma TrailerOf(payload: seq<byte>, t: seq<byte>)
    requires |t| == 2 && Remainder(BitsOf(payload + t)) == Zeros(16)
    ensures BitsOf(t) == Remainder(BitsOf(payload) + Zeros(16))
  {
    hide Remainder, BitsOf;
    var m, b := BitsOf(payload), BitsOf(t);
    BitsConcat(payload, t);
    assert Add(m + Zeros(16), Zeros(|m|) + b) == m + b;
    RemainderAdd(m + Zeros(16), b);
    var r := Remainder(m + Zeros(16));
    assert forall i :: 0 <= i < 16 ==> Add(r, b)[i] == Zeros(16)[i];
  }

  lemma FramesAreGood(number: byte, payload: seq<byte>)
    requires |payload| == 128 || |payload| == 1024
    ensures GoodPacket(Frame(number, payload, Trailer(payload)), number, payload)
  {
    hide Remainder, BitsOf, Crc16;
    NoResidue(payload);
    var f := Frame(number, payload, Trailer(payload));
    assert f[3..] == payload + [Crc16(payload) / 256, Crc16(payload) % 256];
  }

  // ---- one message ----

  /** The block of the file that starts at `at`: 1024 bytes while there are as many, otherwise 128,
      with 0x1A behind the end of the file. */
  ghost predicate FileBlock(file: seq<byte>, at: nat, p: seq<byte>) {
    && at < |file| && |p| == (if |file| - at >= 1024 then 1024 else 128)
    && forall i :: 0 <= i < |p| ==> p[i] == if at + i < |file| then file[at + i] else 0x1A
  }

  lemma PayloadIsBlock(file: seq<byte>, at: nat)
    requires at < |file|
    ensures FileBlock(file, at, Payload(file, at))
  { }

  /** How far the sender has come: the header, each block, and three messages behind them. */
  function Place(job: Job, phase: Phase): nat {
    match phase
    case Announce => 0
    case Await => 0
    case Data(_, block) => block
    case EndFile => BlockCount(|job.file|) + 1
    case EndSession => BlockCount(|job.file|) + 2
    case LastEnd => BlockCount(|job.file|) + 3
  }

  /** `m` is what belongs to place `k`: the header, block `k` with its number modulo 256, the end of
      transmission, the empty header, and the end of transmission once more. */
  ghost predicate Belongs(job: Job, k: nat, m: seq<byte>) {
    var n := BlockCount(|job.file|);
    if k == 0 then |job.header| == 131 && GoodPacket(m, 0, job.header[3..])
    else if k <= n then exists p :: FileBlock(job.file, Start(|job.file|, k), p) && GoodPacket(m, k % 256, p)
    else if k == n + 2 then GoodPacket(m, 0, Repeat(0, 128))
    else (k == n + 1 || k == n + 3) && m == [0x04]
  }

  /** A data phase is at one of the blocks. */
  ghost predicate Placed(job: Job, tx: Tx) {
    && GoodJob(job)
    && (tx.phase.Data? ==>
          && 1 <= tx.phase.block <= BlockCount(|job.file|)
          && tx.phase.at == Start(|job.file|, tx.phase.block) < |job.file|)
  }

  lemma MessageBelongs(job: Job, tx: Tx)
    requires Placed(job, tx) && !tx.phase.Await?
    ensures Belongs(job, Place(job, tx.phase), Message(job, tx))
  {
    hide GoodPacket, Trailer, Remainder, BitsOf;
    match tx.phase
    case Announce =>
      var h := job.header;
      assert h == [SOH, 0, 0xFF] + h[PACKET_HEADER..] by { assert h == h[..PACKET_HEADER] + h[PACKET_HEADER..]; }
      FramesAreGood(0, h[PACKET_HEADER..]);
    case Data(at, block) =>
      FramesAreGood(block % 256, Payload(job.file, at));
      PayloadIsBlock(job.file, at);
    case EndFile =>
    case EndSession => FramesAreGood(0, Repeat(0, PACKET_SIZE));
    case LastEnd =>
  }

  // ---- the whole line ----

  /** From the place it has come to, the sender stays or goes on by one. */
  lemma PlaceAfter(job: Job, tx: Tx, tick: Tick)
    requires Placed(job, tx) && tx.result.None?
    ensures WfTx(job, tx) && Placed(job, Turn(job, tx, tick))
    ensures Place(job, tx.phase) <= Place(job, Turn(job, tx, tick).phase) <= Place(job, tx.phase) + 1
  {
    hide Message, BlockCount, Start, BlockSize;
    var n := |job.file|;
    if tx.phase.Data? {
      OneOn(n, tx.phase.block);
    } else if tx.phase.Await? {
      FirstOn(n);
    }
  }

  lemma OneOn(n: nat, k: nat)
    requires 1 <= k <= BlockCount(n) && Start(n, k) < n
    ensures Start(n, k + 1) == Start(n, k) + BlockSize(n - Start(n, k))
    ensures Start(n, k + 1) < n <==> k < BlockCount(n)
  {
    hide BlockCount, Start;
    StartAt(n, k);
    LastBlockEnds(n);
    if k < BlockCount(n) { BlocksLeft(n, k + 1); }
  }

  lemma FirstOn(n: nat)
    ensures Start(n, 1) == 0 && (0 < n <==> 1 <= BlockCount(n))
  { }

  /** The messages `ms` belong to the places `ks`, from `k` on without a gap. */
  ghost predicate InOrderFrom(job: Job, ks: seq<nat>, ms: seq<seq<byte>>, k: nat) {
    && |ks| == |ms|
    && (forall i :: 0 <= i < |ks| ==> Belongs(job, ks[i], ms[i]))
    && (ks != [] ==> k <= ks[0] <= k + 1)
    && forall i :: 0 < i < |ks| ==> ks[i - 1] <= ks[i] <= ks[i - 1] + 1
  }

  lemma InOrderOne(job: Job, ks: seq<nat>, ms: seq<seq<byte>>, k: nat, k': nat, m: seq<byte>)
    requires InOrderFrom(job, ks, ms, k') && Belongs(job, k, m) && (ks != [] ==> k <= ks[0] <= k + 1)
    ensures InOrderFrom(job, [k] + ks, [m] + ms, k)
  {
    hide Belongs;
    var ks', ms' := [k] + ks, [m] + ms;
    assert ks'[0] == k && ms'[0] == m;
    assert forall i :: 0 < i < |ks'| ==> ks'[i] == ks[i - 1] && ms'[i] == ms[i - 1];
  }

  lemma InOrderSince(job: Job, ks: seq<nat>, ms: seq<seq<byte>>, k: nat, k': nat)
    requires InOrderFrom(job, ks, ms, k') && (ks != [] ==> k <= ks[0] <= k + 1)
    ensures InOrderFrom(job, ks, ms, k)
  {
    hide Belongs;
  }

  lemma PlacedWf(job: Job, tx: Tx)
    requires Placed(job, tx)
    ensures WfTx(job, tx)
  { }

  lemma TurnSends(job: Job, tx: Tx, tick: Tick)
    requires WfTx(job, tx)
    ensures Turn(job, tx, tick).out == tx.out + Message(job, tx) && (tx.phase.Await? ==> Message(job, tx) == [])
    ensures Turn(job, tx, tick).phase.Await? ==> Place(job, tx.phase) == 0 == Place(job, Turn(job, tx, tick).phase)
    ensures tx.phase.Await? ==> Place(job, tx.phase) == 0 && !Turn(job, tx, tick).phase.Await?
  {
    hide Message;
    if tx.phase.Await? { NothingAwaiting(job, tx); }
  }

  lemma NothingAwaiting(job: Job, tx: Tx)
    requires WfTx(job, tx) && tx.phase.Await?
    ensures Message(job, tx) == []
  { }

  lemma LessToDo(job: Job, tx: Tx, input: seq<Tick>)
    requires WfTx(job, tx) && tx.result.None?
    ensures |Tail(input)| < |input| || (input == [] && Budget(Turn(job, tx, Head(input))) < Budget(tx))
  {
    hide Message;
  }

  lemma OneSent(out: seq<byte>, m: seq<byte>, ms: seq<seq<byte>>)
    ensures Flatten([m] + ms) == m + Flatten(ms) && (out + m) + Flatten(ms) == out + Flatten([m] + ms)
  {
    assert ([m] + ms)[1..] == ms;
  }

  /** Whatever is answered, the line carries the header, the blocks of the file and the three closing
      messages, in this order, each as often as it is tried, and none left out on the way. */
  lemma {:induction false} LineFrom(job: Job, tx: Tx, input: seq<Tick>) returns (ks: seq<nat>, ms: seq<seq<byte>>)
    requires Placed(job, tx)
    ensures WfTx(job, tx) && Run(job, tx, input).out == tx.out + Flatten(ms)
    ensures InOrderFrom(job, ks, ms, Place(job, tx.phase)) && (ks == [] <==> tx.result.Some? || ms == [])
    ensures tx.result.Some? ==> ks == []
    ensures tx.result.None? && !tx.phase.Await? ==> ks != [] && ks[0] == Place(job, tx.phase)
    decreases |input|, Budget(tx)
  {
    hide Belongs, Placed, Turn, Place, Message, WfTx;
    PlacedWf(job, tx);
    if tx.result.Some? {
      ks, ms := [], [];
      assert tx.out + [] == tx.out;
    } else {
      PlaceAfter(job, tx, Head(input));
      RunUnfolds(job, tx, input);
      LessToDo(job, tx, input);
      TurnSends(job, tx, Head(input));
      var k := Place(job, tx.phase);
      var k' := Place(job, Turn(job, tx, Head(input)).phase);
      ks, ms := LineFrom(job, Turn(job, tx, Head(input)), Tail(input));
      if tx.phase.Await? {
        assert tx.out + [] == tx.out;
        InOrderSince(job, ks, ms, k, k');
      } else {
        MessageBelongs(job, tx);
        InOrderOne(job, ks, ms, k, k', Message(job, tx));
        OneSent(tx.out, Message(job, tx), ms);
        ks, ms := [k] + ks, [Message(job, tx)] + ms;
      }
    }
  }

  /** The line of a whole transfer, from its first byte on. */
  lemma LineOfTransfer(job: Job, input: seq<Tick>) returns (ks: seq<nat>, ms: seq<seq<byte>>)
    requires GoodJob(job)
    ensures Run(job, Tx(Announce, 0, [], None), input).out == Flatten(ms)
    ensures ks != [] && ks[0] == 0 && InOrderFrom(job, ks, ms, 0)
  {
    hide Belongs;
    ks, ms := LineFrom(job, Tx(Announce, 0, [], None), input);
    assert [] + Flatten(ms) == Flatten(ms);
  }
}
