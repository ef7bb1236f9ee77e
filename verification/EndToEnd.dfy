/** A whole transfer over a line that loses nothing. */
module EndToEnd {
  import opened Bytes
  import opened Numerals
  import opened Packet
  import opened Blocks
  import opened Delivery
  import opened StopAndWait
  import opened StopAndWaitSafety
  import R = Receiver
  import T = Sender

  /** Nobody waits: what is sent arrives, and the answer is read. Nothing answers the last
      end of transmission. */
  function Exchange(phase: T.Phase): seq<Step> {
    match phase
    case Announce => [Send, Deliver, Hear, Hear]
    case Await => [Hear]
    case Data(_, _) => [Send, Deliver, Hear]
    case EndFile => [Send, Deliver, Hear]
    case EndSession => [Send, Deliver, Hear]
    case LastEnd => [Send, TimeOut]
  }

  function Exchanges(l: Link, s: Net, n: nat): (s': Net)
    requires Inv(l, s)
    ensures Inv(l, s')
    decreases n
  {
    if n == 0 then s else Exchanges(l, DoAll(l, s, Exchange(s.tx.phase)), n - 1)
  }

  // ---- the same run, seen by either program alone ----

  /** The receiver's state is that of its own run on the bytes sent so far. */
  ghost predicate RxReads(l: Link, rx0: R.Rx, rx: R.Rx, sent: seq<byte>)
    requires R.Wf(rx0) && R.Wf(rx)
  {
    forall rest: seq<Tick> :: R.Run(Setting(l), rx0, Ticks(sent) + rest) == R.Run(Setting(l), rx, rest)
  }

  /** The sender's state is that of its own run on the answers so far. */
  ghost predicate TxReads(l: Link, tx0: T.Tx, tx: T.Tx, answers: seq<byte>)
    requires T.WfTx(JobOf(l), tx0) && T.WfTx(JobOf(l), tx)
  {
    forall rest: seq<Tick> :: T.Run(JobOf(l), tx0, Ticks(answers) + rest) == T.Run(JobOf(l), tx, rest)
  }

  lemma TicksConcat(a: seq<byte>, b: seq<byte>)
    ensures Ticks(a + b) == Ticks(a) + Ticks(b)
  { }

  /** A message read by the receiver's own run is a message that arrives. */
  lemma RunFrame(l: Link, rx: R.Rx, m: Message, number: byte, payload: seq<byte>, rest: seq<Tick>)
    requires R.Wf(rx) && rx.result.None? && !m.Garbled?
    requires |payload| == PACKET_SIZE || |payload| == PACKET_1K_SIZE
    requires BytesOf(l, m) == Frame(number, payload, T.Trailer(payload))
    ensures R.Wf(Arrive(l, rx, m))
    ensures R.Run(Setting(l), rx, Ticks(BytesOf(l, m)) + rest) == R.Run(Setting(l), Arrive(l, rx, m), rest)
  {
    var f := BytesOf(l, m);
    FrameRoundTrip(rx.packet, number, payload, T.Trailer(payload), []);
    FrameRoundTrip(rx.packet, number, payload, T.Trailer(payload), rest);
    assert Ticks(f) + [] == Ticks(f);
    hide BytesOf, T.Trailer, Scan;
    R.RunUnfolds(Setting(l), rx, Ticks(f) + rest);
  }

  lemma RunEot(l: Link, rx: R.Rx, rest: seq<Tick>)
    requires R.Wf(rx) && rx.result.None?
    ensures R.Wf(Arrive(l, rx, EndOfTransmission))
    ensures R.Run(Setting(l), rx, Ticks([EOT]) + rest) == R.Run(Setting(l), Arrive(l, rx, EndOfTransmission), rest)
  {
    assert Tail(Ticks([EOT]) + rest) == rest;
    R.RunUnfolds(Setting(l), rx, Ticks([EOT]) + rest);
  }

  lemma RunMessage(l: Link, rx: R.Rx, m: Message, rest: seq<Tick>)
    requires GoodLink(l) && R.Wf(rx) && rx.result.None? && !m.Garbled? && (m.Block? ==> 1 <= m.k <= Total(l))
    ensures R.Wf(Arrive(l, rx, m))
    ensures R.Run(Setting(l), rx, Ticks(BytesOf(l, m)) + rest) == R.Run(Setting(l), Arrive(l, rx, m), rest)
  {
    hide Arrive, R.Run;
    match m
    case Header => HeaderFrame(l); RunFrame(l, rx, m, 0, JobOf(l).header[PACKET_HEADER..], rest);
    case Block(k) => NextStart(l, k); RunFrame(l, rx, m, k % 256, BlockAt(l, k), rest);
    case EndOfTransmission => RunEot(l, rx, rest);
    case EmptyHeader => RunFrame(l, rx, m, 0, Repeat(0, PACKET_SIZE), rest);
  }

  lemma Regrouped(a: seq<byte>, b: seq<byte>, rest: seq<Tick>)
    ensures Ticks(a + b) + rest == Ticks(a) + (Ticks(b) + rest)
  {
    TicksConcat(a, b);
  }

  lemma RxReadsOn(l: Link, rx0: R.Rx, rx: R.Rx, sent: seq<byte>, m: Message)
    requires GoodLink(l) && R.Wf(rx0) && R.Wf(rx) && rx.result.None? && !m.Garbled?
              && (m.Block? ==> 1 <= m.k <= Total(l))
    requires RxReads(l, rx0, rx, sent)
    ensures R.Wf(Arrive(l, rx, m)) && RxReads(l, rx0, Arrive(l, rx, m), sent + BytesOf(l, m))
  {
    hide Arrive, R.Run, BytesOf, R.Wf, GoodLink, Total, Ticks;
    RunMessage(l, rx, m, []);
    var rx' := Arrive(l, rx, m);
    forall rest: seq<Tick>
      ensures R.Run(Setting(l), rx0, Ticks(sent + BytesOf(l, m)) + rest) == R.Run(Setting(l), rx', rest)
    {
      RunMessage(l, rx, m, rest);
      Regrouped(sent, BytesOf(l, m), rest);
    }
  }

  lemma TxReadsOn(l: Link, tx0: T.Tx, tx: T.Tx, answers: seq<byte>, b: byte)
    requires T.WfTx(JobOf(l), tx0) && T.WfTx(JobOf(l), tx) && tx.result.None? && TxReads(l, tx0, tx, answers)
    ensures T.WfTx(JobOf(l), T.Turn(JobOf(l), tx, Got(b)))
    ensures TxReads(l, tx0, T.Turn(JobOf(l), tx, Got(b)), answers + [b])
  {
    hide T.Run, T.Turn, T.WfTx, GoodLink;
    T.RunUnfolds(JobOf(l), tx, [Got(b)]);
    forall rest: seq<Tick>
      ensures T.Run(JobOf(l), tx0, Ticks(answers + [b]) + rest) == T.Run(JobOf(l), T.Turn(JobOf(l), tx, Got(b)), rest)
    {
      Regrouped(answers, [b], rest);
      assert Ticks([b]) == [Got(b)];
      T.RunUnfolds(JobOf(l), tx, [Got(b)] + rest);
      assert Tail([Got(b)] + rest) == rest;
    }
  }

  // ---- one exchange ----

  lemma DoTwo(l: Link, s: Net, a: Step, b: Step)
    requires Inv(l, s)
    ensures Inv(l, Do(l, s, a)) && DoAll(l, s, [a, b]) == Do(l, Do(l, s, a), b)
  {
    StepKeepsInv(l, s, a);
    var s1 := Do(l, s, a);
    StepKeepsInv(l, s1, b);
    hide Inv, Do;
    assert [a, b][1..] == [b] && [b][1..] == [];
    assert DoAll(l, s1, [b]) == DoAll(l, Do(l, s1, b), []);
  }

  lemma DoThree(l: Link, s: Net, a: Step, b: Step, c: Step)
    requires Inv(l, s)
    ensures Inv(l, Do(l, s, a)) && DoAll(l, s, [a, b, c]) == DoAll(l, Do(l, s, a), [b, c])
  {
    StepKeepsInv(l, s, a);
    hide Inv, Do;
    assert [a, b, c][1..] == [b, c];
  }

  lemma DoFour(l: Link, s: Net, a: Step, b: Step, c: Step, d: Step)
    requires Inv(l, s)
    ensures Inv(l, DoAll(l, s, [a, b, c])) && DoAll(l, s, [a, b, c, d]) == Do(l, DoAll(l, s, [a, b, c]), d)
  {
    StepKeepsInv(l, s, a);
    var s1 := Do(l, s, a);
    DoThree(l, s, a, b, c);
    StepKeepsInv(l, s1, b);
    DoTwo(l, s1, b, c);
    DoThree(l, s1, b, c, d);
    DoTwo(l, Do(l, s1, b), c, d);
    hide Inv, Do;
    assert [a, b, c, d][1..] == [b, c, d];
  }

  /** Nothing is on the way and nobody waits; the run so far is what either program does alone. */
  ghost predicate Quiet(l: Link, s0: Net, s: Net) {
    && Inv(l, s0) && Inv(l, s)
    && s.tx.errors == 0 && s.tx.result.None? && !s.waiting && s.toRx == [] && s.toTx == [] && s.rx.result.None?
    && RxReads(l, s0.rx, s.rx, s.tx.out) && TxReads(l, s0.tx, s.tx, s.rx.out)
  }

  function Sent(l: Link, tx: T.Tx): T.Tx
    requires T.WfTx(JobOf(l), tx)
  {
    tx.(out := tx.out + T.Message(JobOf(l), tx))
  }

  /** Send, deliver, hear the acknowledgement. */
  lemma Exchanged(l: Link, s: Net, rx: R.Rx, more: seq<byte>)
    requires Inv(l, s) && s.tx.result.None? && !s.waiting && s.toRx == [] && s.toTx == [] && s.rx.result.None?
    requires !s.tx.phase.Await? && rx == Arrive(l, s.rx, MessageOf(s.tx)) && rx.out == s.rx.out + ([ACK] + more)
    ensures DoAll(l, s, [Send, Deliver, Hear]) == Net(T.Turn(JobOf(l), s.tx, Got(ACK)), false, rx, [], more)
  {
    InvWf(l, s);
    var s1, s2 := Do(l, s, Send), Net(Sent(l, s.tx), true, rx, [], [ACK] + more);
    hide Inv, WfNet, Do, Arrive, T.Turn, MessageOf;
    DoThree(l, s, Send, Deliver, Hear);
    DoTwo(l, s1, Deliver, Hear);
    InvWf(l, s1);
    SentQuiet(l, s);
    DeliveredQuiet(l, s1, rx, more);
    InvWf(l, s2);
    HeardQuiet(l, s, s2, more);
  }

  lemma InvWf(l: Link, s: Net)
    requires Inv(l, s)
    ensures WfNet(l, s) && T.WfTx(JobOf(l), s.tx) && R.Wf(s.rx)
  { }

  lemma SentQuiet(l: Link, s: Net)
    requires WfNet(l, s) && s.tx.result.None? && !s.waiting && !s.tx.phase.Await? && s.toRx == []
    ensures Do(l, s, Send) == s.(tx := Sent(l, s.tx), waiting := true, toRx := [MessageOf(s.tx)])
  {
    hide T.Message, GoodLink, MessageOf;
    assert [] + [MessageOf(s.tx)] == [MessageOf(s.tx)];
  }

  lemma DeliveredQuiet(l: Link, s: Net, rx: R.Rx, more: seq<byte>)
    requires WfNet(l, s) && s.rx.result.None? && |s.toRx| == 1 && s.toTx == []
    requires rx == Arrive(l, s.rx, s.toRx[0]) && rx.out == s.rx.out + ([ACK] + more)
    ensures Do(l, s, Deliver) == s.(rx := rx, toRx := [], toTx := [ACK] + more)
  {
    hide Arrive, GoodLink;
    assert s.toRx[1..] == [];
    assert rx.out[|s.rx.out|..] == [ACK] + more;
    assert [] + ([ACK] + more) == [ACK] + more;
  }

  lemma HeardQuiet(l: Link, s0: Net, s: Net, more: seq<byte>)
    requires WfNet(l, s) && s.waiting && s.toTx == [ACK] + more
    requires T.WfTx(JobOf(l), s0.tx) && s0.tx.result.None? && s.tx == Sent(l, s0.tx)
    ensures Do(l, s, Hear) == s.(tx := T.Turn(JobOf(l), s0.tx, Got(ACK)), waiting := false, toTx := more)
  {
    hide T.React, T.Message, GoodLink;
    assert ([ACK] + more)[1..] == more;
  }

  /** What an exchange keeps of `Quiet`. */
  lemma ExchangeReads(l: Link, s0: Net, s: Net)
    requires Quiet(l, s0, s) && !s.tx.phase.Await?
    ensures var rx := Arrive(l, s.rx, MessageOf(s.tx));
            var tx := T.Turn(JobOf(l), s.tx, Got(ACK));
            && R.Wf(rx) && RxReads(l, s0.rx, rx, tx.out)
            && T.WfTx(JobOf(l), tx) && TxReads(l, s0.tx, tx, s.rx.out + [ACK])
  {
    SendsMessage(l, s.tx);
    assert T.Turn(JobOf(l), s.tx, Got(ACK)).out == s.tx.out + BytesOf(l, MessageOf(s.tx));
    hide T.Turn, T.Message, BytesOf, Arrive, RxReads, TxReads, Settled, Start, BlockCount;
    RxReadsOn(l, s0.rx, s.rx, s.tx.out, MessageOf(s.tx));
    TxReadsOn(l, s0.tx, s.tx, s.rx.out, ACK);
  }

  /** A block, or the end of transmission, exchanged. */
  lemma PlainExchange(l: Link, s0: Net, s: Net) returns (s': Net)
    requires Quiet(l, s0, s) && (s.tx.phase.Data? || s.tx.phase.EndFile?)
    requires var rx := Arrive(l, s.rx, MessageOf(s.tx)); rx.out == s.rx.out + [ACK] && rx.result.None?
    ensures s' == DoAll(l, s, Exchange(s.tx.phase)) && Quiet(l, s0, s')
    ensures s'.rx == Arrive(l, s.rx, MessageOf(s.tx)) && s'.tx.phase == T.Turn(JobOf(l), s.tx, Got(ACK)).phase
  {
    ExchangeReads(l, s0, s);
    var rx := Arrive(l, s.rx, MessageOf(s.tx));
    assert [ACK] + [] == [ACK];
    Exchanged(l, s, rx, []);
    s' := DoAll(l, s, [Send, Deliver, Hear]);
    hide Arrive, RxReads, TxReads, Settled, T.Message;
  }

  // ---- the stages of the transfer ----

  /** The receiver expects block `k` and the sender is about to send it, or to close the file. */
  ghost predicate Stage(l: Link, s0: Net, s: Net, k: nat) {
    && Quiet(l, s0, s) && 1 <= k <= 1 + Total(l)
    && s.tx.phase == T.NextBlock(JobOf(l), Start(|l.file|, k), k) && RxAt(l, k, s.rx)
  }

  lemma InitialQuiet(l: Link, s0: Net)
    requires Initial(l, s0)
    ensures Quiet(l, s0, s0) && Inv(l, s0) && GoodLink(l) && RxAt(l, 0, s0.rx) && s0.rx.result.None?
              && IsPart(Header, 0)
    ensures s0.tx.phase == T.Announce && s0.tx.result.None? && !s0.waiting && s0.toRx == [] && s0.toTx == []
    ensures MessageOf(s0.tx) == Header && Exchange(s0.tx.phase) == [Send, Deliver, Hear, Hear] && R.Wf(s0.rx)
    ensures T.WfTx(JobOf(l), s0.tx)
  {
    hide Image, R.Run, T.Run;
    InitialInv(l, s0);
    assert Ticks([]) == [];
    assert forall rest: seq<Tick> :: [] + rest == rest;
  }

  lemma HeaderStage(l: Link, s0: Net) returns (s: Net)
    requires Initial(l, s0)
    ensures Inv(l, s0) && s == DoAll(l, s0, Exchange(s0.tx.phase)) && Stage(l, s0, s, 1)
  {
    hide *;
    InitialQuiet(l, s0);
    ExchangeReads(l, s0, s0);
    PartAccepted(l, 0, s0.rx, Header);
    var rx := Arrive(l, s0.rx, Header);
    assert [ACK, CRC16] == [ACK] + [CRC16];
    Exchanged(l, s0, rx, [CRC16]);
    s := HeaderHeard(l, s0, rx);
  }

  /** The second byte the receiver answers the header with. */
  lemma HeaderHeard(l: Link, s0: Net, rx: R.Rx) returns (s: Net)
    requires Initial(l, s0) && Inv(l, s0) && RxAt(l, 1, rx) && rx.result.None? && rx.out == s0.rx.out + [ACK, CRC16]
    requires var tx := T.Turn(JobOf(l), s0.tx, Got(ACK));
             && DoAll(l, s0, [Send, Deliver, Hear]) == Net(tx, false, rx, [], [CRC16])
             && RxReads(l, s0.rx, rx, tx.out)
             && T.WfTx(JobOf(l), tx) && TxReads(l, s0.tx, tx, s0.rx.out + [ACK])
    ensures s == DoAll(l, s0, [Send, Deliver, Hear, Hear]) && Stage(l, s0, s, 1)
  {
    DoFour(l, s0, Send, Deliver, Hear, Hear);
    var s1 := DoAll(l, s0, [Send, Deliver, Hear]);
    StepKeepsInv(l, s1, Hear);
    s := Do(l, s1, Hear);
    NextPhase(l, 0);
    assert [CRC16][1..] == [];
    TxReadsOn(l, s0.tx, s1.tx, s0.rx.out + [ACK], CRC16);
    assert s0.rx.out + [ACK] + [CRC16] == rx.out;
    assert s1.tx.phase.Await? && s1.tx.out + [] == s1.tx.out;
    assert s.tx == T.Turn(JobOf(l), s1.tx, Got(CRC16));
  }

  lemma BlockReady(l: Link, s0: Net, s: Net, k: nat)
    requires Stage(l, s0, s, k) && k <= Total(l)
    ensures Quiet(l, s0, s) && s.tx.phase == T.Data(Start(|l.file|, k), k)
    ensures MessageOf(s.tx) == Block(k) && IsPart(Block(k), k) && T.WfTx(JobOf(l), s.tx)
    ensures GoodLink(l) && k >= 1 && RxAt(l, k, s.rx) && s.rx.result.None?
  {
    StartFits(l, k);
  }

  /** The phase after block `k` is acknowledged. */
  lemma BlockTurned(l: Link, tx: T.Tx, k: nat)
    requires GoodLink(l) && 1 <= k <= Total(l) && T.WfTx(JobOf(l), tx) && tx.phase == T.Data(Start(|l.file|, k), k)
    ensures T.Turn(JobOf(l), tx, Got(ACK)).phase == T.NextBlock(JobOf(l), Start(|l.file|, k + 1), k + 1)
  {
    hide T.Message, Start;
    NextPhase(l, k);
  }

  lemma StageIs(l: Link, s0: Net, s: Net, k: nat)
    requires Quiet(l, s0, s) && 1 <= k <= 1 + Total(l) && GoodLink(l)
    requires s.tx.phase == T.NextBlock(JobOf(l), Start(|l.file|, k), k) && RxAt(l, k, s.rx)
    ensures Stage(l, s0, s, k)
  { }

  lemma BlockStage(l: Link, s0: Net, s: Net, k: nat) returns (s': Net)
    requires Stage(l, s0, s, k) && k <= Total(l)
    ensures s' == DoAll(l, s, Exchange(s.tx.phase)) && Stage(l, s0, s', k + 1)
  {
    hide *;
    BlockReady(l, s0, s, k);
    PartAccepted(l, k, s.rx, Block(k));
    s' := PlainExchange(l, s0, s);
    BlockTurned(l, s.tx, k);
    StageIs(l, s0, s', k + 1);
  }

  lemma ExchangesUnfold(l: Link, s: Net, n: nat)
    requires Inv(l, s)
    ensures Exchanges(l, s, 0) == s
    ensures Exchanges(l, s, n + 1) == Exchanges(l, DoAll(l, s, Exchange(s.tx.phase)), n)
  { }

  lemma StageInv(l: Link, s0: Net, s: Net, k: nat)
    requires Stage(l, s0, s, k)
    ensures Inv(l, s) && k <= 1 + Total(l)
  { }

  /** From block `k` to the end of the file. */
  lemma {:induction false} BlockStages(l: Link, s0: Net, s: Net, k: nat) returns (s': Net)
    requires Stage(l, s0, s, k)
    ensures Inv(l, s) && k <= 1 + Total(l) && s' == Exchanges(l, s, 1 + Total(l) - k) && Stage(l, s0, s', 1 + Total(l))
    decreases 1 + Total(l) - k
  {
    hide *;
    StageInv(l, s0, s, k);
    if k == 1 + Total(l) {
      s' := s;
      ExchangesUnfold(l, s, 0);
    } else {
      ExchangesUnfold(l, s, Total(l) - k);
      var s1 := BlockStage(l, s0, s, k);
      s' := BlockStages(l, s0, s1, k + 1);
    }
  }

  /** The file closed at both ends. */
  ghost predicate Closed(l: Link, s0: Net, s: Net) {
    && Quiet(l, s0, s) && s.tx.phase == T.EndSession && s.rx.received == 0 && s.rx.size == Size(l)
    && s.rx.log == LogAt(l, 1 + Total(l)) + [R.Closed]
  }

  lemma CloseStage(l: Link, s0: Net, s: Net) returns (s': Net)
    requires Stage(l, s0, s, 1 + Total(l))
    ensures s' == DoAll(l, s, Exchange(s.tx.phase)) && Closed(l, s0, s')
  {
    NextPhase(l, Total(l));
    EotArrives(l, s.rx);
    s' := PlainExchange(l, s0, s);
  }

  /** The receiver has returned. */
  ghost predicate Ended(l: Link, s0: Net, s: Net) {
    && Inv(l, s0) && Inv(l, s)
    && s.tx.errors == 0 && s.tx.result.None? && !s.waiting && s.toRx == [] && s.toTx == [] && s.tx.phase == T.LastEnd
    && s.rx.result == Some(Size(l)) && s.rx.log == LogAt(l, 1 + Total(l)) + [R.Closed, R.Ended]
    && RxReads(l, s0.rx, s.rx, s.tx.out) && TxReads(l, s0.tx, s.tx, s.rx.out)
  }

  lemma EndStage(l: Link, s0: Net, s: Net) returns (s': Net)
    requires Closed(l, s0, s)
    ensures s' == DoAll(l, s, Exchange(s.tx.phase)) && Ended(l, s0, s')
  {
    hide Arrive, RxReads, TxReads, Inv, LogAt, T.Turn, DoAll;
    InvWf(l, s);
    EmptyHeaderArrives(l, s.rx);
    ExchangeReads(l, s0, s);
    var rx := Arrive(l, s.rx, EmptyHeader);
    assert [ACK] + [] == [ACK];
    Exchanged(l, s, rx, []);
    s' := DoAll(l, s, [Send, Deliver, Hear]);
    LastTurn(l, s.tx);
    assert LogAt(l, 1 + Total(l)) + [R.Closed] + [R.Ended] == LogAt(l, 1 + Total(l)) + [R.Closed, R.Ended];
  }

  lemma LastTurn(l: Link, tx: T.Tx)
    requires T.WfTx(JobOf(l), tx) && tx.phase == T.EndSession && tx.result.None?
    ensures var tx' := T.Turn(JobOf(l), tx, Got(ACK));
            tx' == tx.(phase := T.LastEnd, out := tx'.out)
  { }

  lemma {:induction false} ExchangesSplit(l: Link, s: Net, a: nat, b: nat)
    requires Inv(l, s)
    ensures Exchanges(l, s, a + b) == Exchanges(l, Exchanges(l, s, a), b)
    decreases a
  {
    hide *;
    ExchangesUnfold(l, s, 0);
    if a > 0 {
      ExchangesUnfold(l, s, a - 1);
      ExchangesUnfold(l, s, a + b - 1);
      ExchangesSplit(l, DoAll(l, s, Exchange(s.tx.phase)), a - 1, b);
    }
  }

  lemma ThreeExchanges(l: Link, s: Net)
    requires Inv(l, s)
    ensures var s1 := DoAll(l, s, Exchange(s.tx.phase));
            var s2 := DoAll(l, s1, Exchange(s1.tx.phase));
            Exchanges(l, s, 3) == DoAll(l, s2, Exchange(s2.tx.phase))
  {
    hide Inv, DoAll, Exchange;
    var s1 := DoAll(l, s, Exchange(s.tx.phase));
    var s2 := DoAll(l, s1, Exchange(s1.tx.phase));
    ExchangesUnfold(l, s, 2);
    ExchangesUnfold(l, s1, 1);
    ExchangesUnfold(l, s2, 0);
    ExchangesUnfold(l, DoAll(l, s2, Exchange(s2.tx.phase)), 0);
  }

  /** The last end of transmission, which nobody answers. */
  lemma LastStage(l: Link, s0: Net, s: Net) returns (s': Net)
    requires Ended(l, s0, s)
    ensures s' == DoAll(l, s, Exchange(s.tx.phase)) && s'.rx == s.rx
    ensures s'.tx == T.Turn(JobOf(l), s.tx, Silence) && s'.tx.result == Some(0)
  {
    hide RxReads, TxReads, Settled, LogAt;
    DoTwo(l, s, Send, TimeOut);
    s' := DoAll(l, s, [Send, TimeOut]);
  }

  /** What either program does alone on what the other sent. */
  lemma LastReads(l: Link, s0: Net, s: Net, tx: T.Tx)
    requires Ended(l, s0, s) && tx == T.Turn(JobOf(l), s.tx, Silence) && tx.result == Some(0)
    ensures R.Run(Setting(l), s0.rx, Ticks(tx.out)) == s.rx
    ensures T.Run(JobOf(l), s0.tx, Ticks(s.rx.out)) == tx
  {
    RxLast(l, s0.rx, s.rx, s.tx.out, T.Message(JobOf(l), s.tx));
    TxLast(l, s0.tx, s.tx, s.rx.out);
  }

  lemma RxLast(l: Link, rx0: R.Rx, rx: R.Rx, sent: seq<byte>, more: seq<byte>)
    requires R.Wf(rx0) && R.Wf(rx) && rx.result.Some? && RxReads(l, rx0, rx, sent)
    ensures R.Run(Setting(l), rx0, Ticks(sent + more)) == rx
  {
    TicksConcat(sent, more);
    assert R.Run(Setting(l), rx, Ticks(more)) == rx;
  }

  lemma TxLast(l: Link, tx0: T.Tx, tx: T.Tx, answers: seq<byte>)
    requires T.WfTx(JobOf(l), tx0) && T.WfTx(JobOf(l), tx) && TxReads(l, tx0, tx, answers)
    requires tx.result.None? && T.Turn(JobOf(l), tx, Silence).result.Some?
    ensures T.Run(JobOf(l), tx0, Ticks(answers)) == T.Turn(JobOf(l), tx, Silence)
  {
    hide T.Turn, T.Message;
    T.RunUnfolds(JobOf(l), tx, []);
    assert Ticks(answers) + [] == Ticks(answers);
    assert T.Run(JobOf(l), tx, []) == T.Run(JobOf(l), T.Turn(JobOf(l), tx, Silence), []);
  }

  /** A transfer over a faultless line: the sender returns 0, the receiver the size of the file,
      and the file is in flash. Either program's run is what it does alone on the bytes the
      other one sends. */
  lemma WholeTransfer(l: Link, s0: Net)
    requires Initial(l, s0)
    ensures Inv(l, s0)
    ensures var s := Exchanges(l, s0, 4 + Total(l));
            && s.tx.result == Some(0) && s.rx.result == Some(Size(l)) && Delivered(l, s.rx.chip.mem)
            && s.rx.log == LogAt(l, 1 + Total(l)) + [R.Closed, R.Ended]
            && s.rx == R.Run(Setting(l), s0.rx, Ticks(s.tx.out))
            && s.tx == T.Run(JobOf(l), s0.tx, Ticks(s.rx.out))
    ensures Total(l) == |l.file| / 1024 + (|l.file| % 1024 + 127) / 128
  {
    hide *;
    var s1 := HeaderStage(l, s0);
    StageInv(l, s0, s1, 1);
    var s2 := BlockStages(l, s0, s1, 1);
    StageInv(l, s0, s2, 1 + Total(l));
    var s3 := CloseStage(l, s0, s2);
    var s4 := EndStage(l, s0, s3);
    var s5 := LastStage(l, s0, s4);
    EndedMeans(l, s0, s4);
    LastReads(l, s0, s4, s5.tx);
    ExchangesUnfold(l, s0, Total(l) + 3);
    ExchangesSplit(l, s1, Total(l), 3);
    ThreeExchanges(l, s2);
    assert s5 == Exchanges(l, s0, 4 + Total(l));
    InvDelivered(l, s5);
    BlockTotal(l);
  }

  lemma EndedMeans(l: Link, s0: Net, s: Net)
    requires Ended(l, s0, s)
    ensures s.rx.result == Some(Size(l)) && s.rx.log == LogAt(l, 1 + Total(l)) + [R.Closed, R.Ended]
              && s.tx.phase == T.LastEnd
  { }

  lemma BlockTotal(l: Link)
    ensures Total(l) == |l.file| / 1024 + (|l.file| % 1024 + 127) / 128
  {
    BlockCountFormula(|l.file|);
  }
}
