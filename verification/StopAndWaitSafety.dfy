/** What every run of sender and receiver over the lossy channels keeps. */
module StopAndWaitSafety {
  import opened Bytes
  import opened FlashMemory
  import opened Numerals
  import opened Packet
  import opened Block0
  import opened Blocks
  import opened Delivery
  import opened StopAndWait
  import R = Receiver
  import S = ReceiverSafety
  import T = Sender

  /** The bytes the sender puts on the line are those of the message that travels. */
  lemma SendsMessage(l: Link, tx: T.Tx)
    requires GoodLink(l) && T.WfTx(JobOf(l), tx) && PhaseOk(l, tx.phase) && !tx.phase.Await?
    ensures T.Message(JobOf(l), tx) == BytesOf(l, MessageOf(tx))
  { }

  // ---- what a message that changes nothing leaves ----

  lemma IgnoredKeepsRx(l: Link, r: nat, rx: R.Rx, rx': R.Rx)
    requires GoodLink(l) && Ignored(rx, rx')
    ensures RxAt(l, r, rx) ==> RxAt(l, r, rx')
    ensures Complete(l, rx) ==> Complete(l, rx')
  { }

  /** What an answer adds to the acknowledgements on the way back. */
  lemma AnswerAcks(s: Net, rx: R.Rx, added: seq<byte>)
    requires rx.out == s.rx.out + added
    ensures Answered(s, rx).toTx == s.toTx + added
    ensures S.Acks(Answered(s, rx).toTx) == S.Acks(s.toTx) + S.Acks(added)
  {
    AcksConcat(s.toTx, added);
  }

  lemma IgnoredAnswer(s: Net, rx: R.Rx)
    requires Ignored(s.rx, rx)
    ensures S.Acks(Answered(s, rx).toTx) == S.Acks(s.toTx)
  {
    assert rx.out == s.rx.out + rx.out[|s.rx.out|..];
    AnswerAcks(s, rx, rx.out[|s.rx.out|..]);
  }

  /** A packet whose number is not the one expected modulo 256 is turned away. */
  lemma StaleHeader(l: Link, rx: R.Rx)
    requires GoodLink(l) && R.Wf(rx) && rx.received % 256 != 0
    ensures Ignored(rx, Arrive(l, rx, Header))
  {
    HeaderFrame(l);
    WrongNumberIgnored(l, rx, 0, JobOf(l).header[PACKET_HEADER..], Header);
  }

  lemma StaleBlock(l: Link, rx: R.Rx, k: nat)
    requires GoodLink(l) && R.Wf(rx) && 1 <= k <= Total(l) && rx.received % 256 != k % 256
    ensures Ignored(rx, Arrive(l, rx, Block(k)))
  {
    NextStart(l, k);
    WrongNumberIgnored(l, rx, k % 256, BlockAt(l, k), Block(k));
  }

  lemma StaleIgnored(l: Link, rx: R.Rx, m: Message, j: nat)
    requires GoodLink(l) && R.Wf(rx) && j <= Total(l) && IsPart(m, j) && rx.received % 256 != j % 256
    ensures Ignored(rx, Arrive(l, rx, m))
  {
    hide Arrive;
    if j == 0 { StaleHeader(l, rx); } else { StaleBlock(l, rx, j); }
  }

  lemma GarbledIgnored(l: Link, rx: R.Rx, m: Message)
    requires R.Wf(rx) && m.Garbled?
    ensures Ignored(rx, Arrive(l, rx, m))
  {
    FailedIgnored(l, if |m.packet| == BUFFER_SIZE then rx.(packet := m.packet) else rx);
  }

  lemma PartAccepted(l: Link, k: nat, rx: R.Rx, m: Message)
    requires GoodLink(l) && k <= Total(l) && RxAt(l, k, rx) && rx.result.None? && IsPart(m, k)
    ensures var rx' := Arrive(l, rx, m);
            && RxAt(l, k + 1, rx') && rx'.result.None?
            && rx'.out == rx.out + (if k == 0 then [ACK, CRC16] else [ACK])
  {
    hide Arrive;
    if k == 0 { HeaderAccepted(l, rx); } else { BlockAccepted(l, k, rx); }
  }

  lemma EotArrives(l: Link, rx: R.Rx)
    requires R.Wf(rx)
    ensures Arrive(l, rx, EndOfTransmission) ==
              rx.(errors := 0, out := rx.out + [ACK], received := 0, log := rx.log + [R.Closed])
  { }

  lemma EmptyHeaderArrives(l: Link, rx: R.Rx)
    requires R.Wf(rx) && rx.received == 0
    ensures var rx' := Arrive(l, rx, EmptyHeader);
            && |rx'.packet| == BUFFER_SIZE
            && rx' == rx.(packet := rx'.packet, errors := 0, out := rx.out + [ACK], log := rx.log + [R.Ended],
                result := Some(rx.size))
  {
    var payload := Repeat(0, PACKET_SIZE);
    FrameArrives(l, rx, 0, payload, EmptyHeader);
    var f := Frame(0, payload, T.Trailer(payload));
    var packet := f + rx.packet[|f|..];
    assert packet[PACKET_HEADER] == packet[PACKET_HEADER..PACKET_HEADER + PACKET_SIZE][0];
  }

  lemma AckCounts()
    ensures S.Acks([ACK]) == 1 && S.Acks([ACK, CRC16]) == 1
  {
    S.AcksAppend([], ACK);
    S.AcksAppendTwo([], ACK, CRC16);
    assert [] + [ACK] == [ACK] && [] + [ACK, CRC16] == [ACK, CRC16];
  }

  // ---- one step of each kind ----

  /** A turn of the receiver that ignores what arrived, with `q` left on the way. */
  lemma IgnoredStep(l: Link, phase: T.Phase, rx: R.Rx, rx': R.Rx, q: seq<Message>, acks: nat)
    requires GoodLink(l) && Ignored(rx, rx') && Settled(l, phase, rx, q, acks)
    ensures Settled(l, phase, rx', q, acks)
  {
    forall r: nat | r <= 1 + Total(l) ensures RxAt(l, r, rx) ==> RxAt(l, r, rx') { IgnoredKeepsRx(l, r, rx, rx'); }
    IgnoredKeepsRx(l, 0, rx, rx');
  }

  /** Losing, garbling or taking away a message on the way. */
  lemma ThinnedStep(l: Link, phase: T.Phase, rx: R.Rx, q: seq<Message>, i: nat, q': seq<Message>, acks: nat, acks': nat)
    requires GoodLink(l) && Settled(l, phase, rx, q, acks) && acks' <= acks
    requires i < |q| && (q' == q[..i] + q[i + 1..] || exists packet :: q' == q[i := Garbled(packet)])
    ensures Settled(l, phase, rx, q', acks')
  {
    forall k: nat
      ensures Window(q, k) ==> Window(q', k)
      ensures Only(q, k) ==> Only(q', k)
      ensures Closing(q, k) ==> Closing(q', k)
    {
      QueueThinned(q, i, q', k);
    }
    QueueThinned(q, i, q', 0);
  }

  lemma RxAtIs(l: Link, r: nat, rx: R.Rx)
    requires GoodLink(l) && RxAt(l, r, rx)
    ensures R.Wf(rx) && rx.received == r <= 1 + Total(l)
  { }

  /** A message arrives while packets are being exchanged: taken, or turned away. */
  lemma PartArrives(l: Link, rx: R.Rx, m: Message, k: nat)
    requires GoodLink(l) && k <= Total(l) && RxAt(l, rx.received, rx) && rx.result.None?
    requires m.Garbled? || IsPart(m, k) || (IsPart(m, k - 1) && rx.received == k)
    requires k <= rx.received <= k + 1
    ensures var rx' := Arrive(l, rx, m);
            if IsPart(m, k) && rx.received == k
            then RxAt(l, k + 1, rx') && rx'.out == rx.out + (if k == 0 then [ACK, CRC16] else [ACK])
            else Ignored(rx, rx')
  {
    hide Arrive, GoodLink, RxAt;
    RxAtIs(l, rx.received, rx);
    if m.Garbled? { GarbledIgnored(l, rx, m); }
    else if !IsPart(m, k) { StaleIgnored(l, rx, m, k - 1); }
    else if rx.received == k { PartAccepted(l, k, rx, m); }
    else { StaleIgnored(l, rx, m, k); }
  }

  lemma InStepAfter(l: Link, rx: R.Rx, rx': R.Rx, q: seq<Message>, acks: nat, k: nat)
    requires GoodLink(l) && InStep(l, rx, q, acks, k) && q != []
    requires if IsPart(q[0], k) && rx.received == k
             then RxAt(l, k + 1, rx') && rx'.out == rx.out + (if k == 0 then [ACK, CRC16] else [ACK])
             else Ignored(rx, rx')
    ensures rx.out <= rx'.out && InStep(l, rx', q[1..], acks + S.Acks(rx'.out[|rx.out|..]), k)
  {
    QueueTail(q, k);
    AckCounts();
    if !(IsPart(q[0], k) && rx.received == k) { IgnoredKeepsRx(l, rx.received, rx, rx'); }
  }

  lemma DeliverInStep(l: Link, rx: R.Rx, q: seq<Message>, acks: nat, k: nat)
    requires GoodLink(l) && InStep(l, rx, q, acks, k) && rx.result.None? && q != []
    ensures var rx' := Arrive(l, rx, q[0]);
            && rx.out <= rx'.out && InStep(l, rx', q[1..], acks + S.Acks(rx'.out[|rx.out|..]), k)
  {
    hide Arrive;
    PartArrives(l, rx, q[0], k);
    InStepAfter(l, rx, Arrive(l, rx, q[0]), q, acks, k);
  }

  /** A message arrives once the file has been closed. */
  lemma DeliverComplete(l: Link, rx: R.Rx, q: seq<Message>, emptyToo: bool)
    requires GoodLink(l) && Complete(l, rx) && rx.result.None? && q != [] && NoParts(q, emptyToo)
    ensures Complete(l, Arrive(l, rx, q[0])) && rx.out <= Arrive(l, rx, q[0]).out
  {
    hide Arrive, GoodLink, RxAt, Image, LogAt;
    if q[0].Garbled? {
      GarbledIgnored(l, rx, q[0]);
      IgnoredKeepsRx(l, 0, rx, Arrive(l, rx, q[0]));
    } else if q[0].EndOfTransmission? {
      EotArrives(l, rx);
    } else {
      EmptyHeaderArrives(l, rx);
    }
  }

  lemma EotCloses(l: Link, rx: R.Rx)
    requires GoodLink(l) && RxAt(l, 1 + Total(l), rx) && rx.result.None?
    ensures Complete(l, Arrive(l, rx, EndOfTransmission)) && rx.out <= Arrive(l, rx, EndOfTransmission).out
  {
    hide Arrive;
    EotArrives(l, rx);
    EotCompletes(l, rx, Arrive(l, rx, EndOfTransmission));
  }

  lemma EotCompletes(l: Link, rx: R.Rx, rx': R.Rx)
    requires GoodLink(l) && RxAt(l, 1 + Total(l), rx) && rx.result.None?
    requires rx' == rx.(errors := 0, out := rx.out + [ACK], received := 0, log := rx.log + [R.Closed])
    ensures Complete(l, rx')
  { }

  lemma LateArrives(l: Link, rx: R.Rx, m: Message)
    requires GoodLink(l) && RxAt(l, 1 + Total(l), rx) && (m.Garbled? || IsPart(m, Total(l)))
    ensures Ignored(rx, Arrive(l, rx, m))
  {
    hide Arrive;
    if m.Garbled? { GarbledIgnored(l, rx, m); } else { StaleIgnored(l, rx, m, Total(l)); }
  }

  lemma ClosingHead(q: seq<Message>, k: nat)
    requires Closing(q, k) && q != []
    ensures q[0].Garbled? || IsPart(q[0], k) || q[0].EndOfTransmission?
  { }

  /** A message arrives after the last block, before the file is closed. */
  lemma DeliverClosing(l: Link, rx: R.Rx, q: seq<Message>, acks: nat)
    requires GoodLink(l) && RxAt(l, 1 + Total(l), rx) && rx.result.None? && q != [] && Closing(q, Total(l)) && acks == 0
    ensures var rx' := Arrive(l, rx, q[0]);
            rx.out <= rx'.out && Settled(l, T.EndFile, rx', q[1..], acks + S.Acks(rx'.out[|rx.out|..]))
  {
    hide Arrive, GoodLink, RxAt, Complete, Window, Closing, Only, NoParts;
    assert R.Wf(rx) by { RxAtIs(l, 1 + Total(l), rx); }
    QueueTail(q, Total(l));
    ClosingHead(q, Total(l));
    if q[0].EndOfTransmission? {
      EotCloses(l, rx);
    } else {
      LateArrives(l, rx, q[0]);
      IgnoredStep(l, T.EndFile, rx, Arrive(l, rx, q[0]), q[1..], acks);
    }
  }

  lemma DeliverAwait(l: Link, rx: R.Rx, q: seq<Message>)
    requires GoodLink(l) && RxAt(l, 1, rx) && q != [] && Only(q, 0)
    ensures Ignored(rx, Arrive(l, rx, q[0]))
  {
    hide Arrive;
    if q[0].Garbled? { GarbledIgnored(l, rx, q[0]); } else { StaleIgnored(l, rx, q[0], 0); }
  }

  lemma SettledWf(l: Link, phase: T.Phase, rx: R.Rx, q: seq<Message>, acks: nat)
    requires GoodLink(l) && Settled(l, phase, rx, q, acks)
    ensures R.Wf(rx)
  {
    hide GoodLink, Window, Closing, NoParts, Only, LogAt, Image;
  }

  lemma DeliverAtPacket(l: Link, phase: T.Phase, rx: R.Rx, q: seq<Message>, acks: nat)
    requires GoodLink(l) && Settled(l, phase, rx, q, acks) && rx.result.None? && q != []
    requires phase.Announce? || phase.Data?
    ensures R.Wf(rx)
    ensures var rx' := Arrive(l, rx, q[0]);
            rx.out <= rx'.out && Settled(l, phase, rx', q[1..], acks + S.Acks(rx'.out[|rx.out|..]))
  {
    hide Arrive, GoodLink, InStep;
    SettledWf(l, phase, rx, q, acks);
    DeliverInStep(l, rx, q, acks, if phase.Announce? then 0 else phase.block);
  }

  lemma DeliverAwaiting(l: Link, rx: R.Rx, q: seq<Message>, acks: nat)
    requires GoodLink(l) && Settled(l, T.Await, rx, q, acks) && q != []
    ensures R.Wf(rx)
    ensures var rx' := Arrive(l, rx, q[0]);
            rx.out <= rx'.out && Settled(l, T.Await, rx', q[1..], acks + S.Acks(rx'.out[|rx.out|..]))
  {
    hide Arrive, GoodLink, RxAt, Only, S.Acks;
    SettledWf(l, T.Await, rx, q, acks);
    DeliverAwait(l, rx, q);
    QueueTail(q, 0);
    IgnoredStep(l, T.Await, rx, Arrive(l, rx, q[0]), q[1..], acks);
  }

  lemma DeliverAtEnd(l: Link, phase: T.Phase, rx: R.Rx, q: seq<Message>, acks: nat)
    requires GoodLink(l) && Settled(l, phase, rx, q, acks) && rx.result.None? && q != []
    requires phase.EndFile? || phase.EndSession? || phase.LastEnd?
    ensures R.Wf(rx)
    ensures var rx' := Arrive(l, rx, q[0]);
            rx.out <= rx'.out && Settled(l, phase, rx', q[1..], acks + S.Acks(rx'.out[|rx.out|..]))
  {
    hide Arrive, GoodLink, RxAt, Complete, Closing, NoParts;
    SettledWf(l, phase, rx, q, acks);
    QueueTail(q, 0);
    var later := !phase.EndFile?;
    if Complete(l, rx) && NoParts(q, later) {
      DeliverComplete(l, rx, q, later);
    } else {
      DeliverClosing(l, rx, q, acks);
    }
  }

  /** Any message that arrives, in any phase. */
  lemma DeliverStep(l: Link, phase: T.Phase, rx: R.Rx, q: seq<Message>, acks: nat)
    requires GoodLink(l) && Settled(l, phase, rx, q, acks) && rx.result.None? && q != []
    ensures R.Wf(rx)
    ensures var rx' := Arrive(l, rx, q[0]);
            && R.Wf(rx') && rx.out <= rx'.out && Settled(l, phase, rx', q[1..], acks + S.Acks(rx'.out[|rx.out|..]))
  {
    hide Arrive, GoodLink, Settled, S.Acks;
    SettledWf(l, phase, rx, q, acks);
    match phase {
      case Announce => DeliverAtPacket(l, phase, rx, q, acks);
      case Data(_, _) => DeliverAtPacket(l, phase, rx, q, acks);
      case Await => DeliverAwaiting(l, rx, q, acks);
      case EndFile => DeliverAtEnd(l, phase, rx, q, acks);
      case EndSession => DeliverAtEnd(l, phase, rx, q, acks);
      case LastEnd => DeliverAtEnd(l, phase, rx, q, acks);
    }
    var rx' := Arrive(l, rx, q[0]);
    SettledWf(l, phase, rx', q[1..], acks + S.Acks(rx'.out[|rx.out|..]));
  }

  /** A message sent joins the way out. */
  lemma SendStep(l: Link, tx: T.Tx, rx: R.Rx, q: seq<Message>, acks: nat)
    requires GoodLink(l) && PhaseOk(l, tx.phase) && Settled(l, tx.phase, rx, q, acks) && !tx.phase.Await?
    ensures Settled(l, tx.phase, rx, q + [MessageOf(tx)], acks)
  {
    hide GoodLink, RxAt, Complete, Start, Image;
    var q' := q + [MessageOf(tx)];
    assert forall i :: 0 <= i < |q'| ==> q'[i] == if i < |q| then q[i] else MessageOf(tx);
  }

  /** An acknowledgement read. */
  lemma AckedStep(l: Link, tx: T.Tx, rx: R.Rx, q: seq<Message>, acks: nat)
    requires GoodLink(l) && T.WfTx(JobOf(l), tx) && PhaseOk(l, tx.phase) && Settled(l, tx.phase, rx, q, acks)
              && acks > 0
    ensures var tx' := T.React(JobOf(l), tx, Got(ACK));
            && T.WfTx(JobOf(l), tx') && PhaseOk(l, tx'.phase) && Settled(l, tx'.phase, rx, q, acks - 1)
  {
    hide Image, LogAt, Start, Total, GoodLink;
    match tx.phase
    case Data(at, k) => NextPhase(l, k);
    case Announce =>
    case Await =>
    case EndFile =>
    case EndSession =>
    case LastEnd =>
  }

  /** What follows block `k`, and what follows the header. */
  lemma NextPhase(l: Link, k: nat)
    requires GoodLink(l) && k <= Total(l)
    ensures var at := Start(|l.file|, k + 1);
            && PhaseOk(l, T.NextBlock(JobOf(l), at, k + 1))
            && (T.NextBlock(JobOf(l), at, k + 1).EndFile? <==> k == Total(l))
    ensures k > 0 ==>
              (Start(|l.file|, k) < |l.file|
               && Start(|l.file|, k + 1) == Start(|l.file|, k) + BlockSize(|l.file| - Start(|l.file|, k)))
  {
    StartFits(l, k + 1);
    if k == Total(l) { LastBlockEnds(|l.file|); }
    if k > 0 { StartFits(l, k); StartAt(|l.file|, k); }
  }

  /** Any other byte read, or the timeout. */
  lemma UnansweredStep(l: Link, tx: T.Tx, rx: R.Rx, q: seq<Message>, acks: nat, tick: Tick)
    requires GoodLink(l) && T.WfTx(JobOf(l), tx) && PhaseOk(l, tx.phase) && Settled(l, tx.phase, rx, q, acks)
              && tick != Got(ACK)
    ensures var tx' := T.React(JobOf(l), tx, tick);
            && T.WfTx(JobOf(l), tx') && PhaseOk(l, tx'.phase) && Settled(l, tx'.phase, rx, q, acks)
  {
    if tx.phase.Await? { NextPhase(l, 0); }
  }

  lemma LoseNet(l: Link, s: Net, step: Step)
    requires Inv(l, s) && (step.LoseMessage? || step.LoseByte? || step.Garble?)
    ensures Inv(l, Do(l, s, step))
  {
    hide Settled, GoodLink, PhaseOk, S.Acks;
    var acks := S.Acks(s.toTx);
    match step
    case LoseMessage(i) => if i < |s.toRx| { ThinnedStep(l, s.tx.phase, s.rx, s.toRx, i, Do(l, s, step).toRx, acks,
        acks); }
    case Garble(i, _) => if i < |s.toRx| { ThinnedStep(l, s.tx.phase, s.rx, s.toRx, i, Do(l, s, step).toRx, acks,
        acks); }
    case LoseByte(i) =>
      if i < |s.toTx| {
        AcksLose(s.toTx, i);
        FewerAcks(l, s.tx.phase, s.rx, s.toRx, acks, S.Acks(Do(l, s, step).toTx));
      }
  }

  lemma FewerAcks(l: Link, phase: T.Phase, rx: R.Rx, q: seq<Message>, acks: nat, acks': nat)
    requires GoodLink(l) && Settled(l, phase, rx, q, acks) && acks' <= acks
    ensures Settled(l, phase, rx, q, acks')
  { }

  /** Only the last phase ends with 0. */
  lemma ZeroEndsLast(job: T.Job, tx: T.Tx, tick: Tick)
    requires T.WfTx(job, tx) && tx.result.None?
    ensures T.React(job, tx, tick).result == Some(0) ==> T.React(job, tx, tick).phase.LastEnd?
  { }

  lemma HearStep(l: Link, s: Net)
    requires Inv(l, s) && Listening(s) && s.toTx != []
    ensures Inv(l, Do(l, s, Hear))
  {
    hide Settled, T.React, S.Acks, GoodLink, PhaseOk;
    AcksHead(s.toTx);
    ZeroEndsLast(JobOf(l), s.tx, Got(s.toTx[0]));
    if s.toTx[0] == ACK {
      AckedStep(l, s.tx, s.rx, s.toRx, S.Acks(s.toTx));
    } else {
      UnansweredStep(l, s.tx, s.rx, s.toRx, S.Acks(s.toTx), Got(s.toTx[0]));
    }
  }

  lemma DeliverNet(l: Link, s: Net)
    requires Inv(l, s) && s.rx.result.None? && s.toRx != []
    ensures Inv(l, Do(l, s, Deliver))
  {
    hide Arrive, Settled, PhaseOk;
    var rx := Arrive(l, s.rx, s.toRx[0]);
    DeliverStep(l, s.tx.phase, s.rx, s.toRx, S.Acks(s.toTx));
    var s1 := s.(toRx := s.toRx[1..]);
    assert rx.out == s1.rx.out + rx.out[|s1.rx.out|..];
    AnswerAcks(s1, rx, rx.out[|s1.rx.out|..]);
  }

  lemma PollNet(l: Link, s: Net)
    requires Inv(l, s) && s.rx.result.None?
    ensures Inv(l, Do(l, s, Poll))
  {
    hide Settled, PhaseOk, S.Acks, R.Handle, GoodLink;
    var rx := R.Handle(Setting(l), s.rx, Failed);
    FailedIgnored(l, s.rx);
    IgnoredAnswer(s, rx);
    IgnoredStep(l, s.tx.phase, s.rx, rx, s.toRx, S.Acks(s.toTx));
  }

  lemma SenderNet(l: Link, s: Net, step: Step)
    requires Inv(l, s) && (step.Send? || step.TimeOut?)
    ensures Inv(l, Do(l, s, step))
  {
    match step
    case Send => if Do(l, s, step) != s { SendStep(l, s.tx, s.rx, s.toRx, S.Acks(s.toTx)); }
    case TimeOut => if Do(l, s, step) != s { UnansweredStep(l, s.tx, s.rx, s.toRx, S.Acks(s.toTx), Silence); }
  }

  /** Any step, any state: the invariant is kept. */
  lemma StepKeepsInv(l: Link, s: Net, step: Step)
    requires Inv(l, s)
    ensures Inv(l, Do(l, s, step))
  {
    match step
    case Hear => if Listening(s) && s.toTx != [] { HearStep(l, s); }
    case Deliver => if s.rx.result.None? && s.toRx != [] { DeliverNet(l, s); }
    case Poll => if s.rx.result.None? { PollNet(l, s); }
    case Send => SenderNet(l, s, step);
    case TimeOut => SenderNet(l, s, step);
    case LoseMessage(_) => LoseNet(l, s, step);
    case LoseByte(_) => LoseNet(l, s, step);
    case Garble(_, _) => LoseNet(l, s, step);
  }

  // ---- whole runs ----

  function DoAll(l: Link, s: Net, steps: seq<Step>): (s': Net)
    requires Inv(l, s)
    ensures Inv(l, s')
    decreases |steps|
  {
    if steps == [] then s
    else
      StepKeepsInv(l, s, steps[0]);
      DoAll(l, Do(l, s, steps[0]), steps[1..])
  }

  /** Both programs just started, nothing on the way. */
  ghost predicate Initial(l: Link, s: Net) {
    && GoodLink(l)
    && s.tx == T.Tx(T.Announce, 0, [], None) && !s.waiting && s.toRx == [] && s.toTx == []
    && R.Wf(s.rx) && s.rx.received == 0 && s.rx.errors == 0 && !s.rx.begun && s.rx.size == 0
    && s.rx.dest == l.start && s.rx.out == [] && s.rx.log == [] && s.rx.result.None?
    && s.rx.chip.mem == l.flash && s.rx.chip.powered
  }

  lemma HeaderGood(l: Link)
    requires GoodLink(l)
    ensures T.GoodJob(JobOf(l))
  {
    DigitCount(|l.file|, 10);
    var h := JobOf(l).header;
    assert h[..|h|] == h;
    HeaderLayout(l.name, Digits(|l.file|), h);
  }

  lemma InitialInv(l: Link, s: Net)
    requires Initial(l, s)
    ensures Inv(l, s)
  {
    HeaderGood(l);
  }

  /** The padded file up to block `r`. */
  function Front(l: Link, r: nat): seq<byte>
    requires GoodLink(l) && 1 <= r <= 1 + Total(l)
  {
    StartFits(l, r);
    Padded(l.file)[..Start(|l.file|, r)]
  }

  /** Flash of a receiver that expects block `r`: outside the sectors of the grant untouched,
      inside them blocks 1 to r - 1 one after the other, and blank before and after. */
  ghost predicate FlashHolds(l: Link, r: nat, m: seq<byte>)
    requires GoodLink(l) && 1 <= r <= 1 + Total(l)
  {
    StartFits(l, r);
    var p := Front(l, r);
    var (from, to) := Sweeping(l);
    && |m| == |l.flash|
    && m[..from] == l.flash[..from] && m[to..] == l.flash[to..]
    && m[from..l.start] == Blank(l.start - from)
    && m[l.start..l.start + |p|] == p
    && m[l.start + |p|..to] == Blank(to - l.start - |p|)
  }

  lemma ImageHolds(l: Link, r: nat)
    requires GoodLink(l) && 1 <= r <= 1 + Total(l)
    ensures FlashHolds(l, r, Image(l, r))
  {
    hide AfterSweep, Reach;
    StartFits(l, r);
    ClearedIs(l);
    var (from, to) := Sweeping(l);
    var p := Front(l, r);
    var m := Splice(Cleared(l), l.start, p);
    hide Cleared, Padded, Start;
    assert m[..from] == l.flash[..from];
    assert m[to..] == l.flash[to..];
    assert m[from..l.start] == Blank(l.start - from);
    assert m[l.start..l.start + |p|] == p;
    assert m[l.start + |p|..to] == Blank(to - l.start - |p|);
  }

  /** What lies in the sectors of the grant, but outside it, is blank. Whole sectors have no such bytes. */
  ghost predicate BlankAround(l: Link)
    requires GoodLink(l)
  {
    var (from, to) := Sweeping(l);
    forall i :: from <= i < to && !(l.start <= i < l.start + l.max) ==> l.flash[i] == BLANK
  }

  /** A receiver that has opened the file has left everything outside its grant as it was if and
      only if what shares the grant's sectors was blank. */
  lemma GrantFrameIff(l: Link, r: nat, m: seq<byte>)
    requires GoodLink(l) && 1 <= r <= 1 + Total(l) && FlashHolds(l, r, m)
    ensures |m| == |l.flash|
    ensures m[..l.start] == l.flash[..l.start] && m[l.start + l.max..] == l.flash[l.start + l.max..] <==> BlankAround(l)
  {
    FlashCells(l, r, m);
    hide FlashHolds, Sweeping, BlockCount, RoundUp;
    SamePartsIff(m, l.flash, l.start, l.start + l.max);
  }

  lemma SamePartsIff(m: seq<byte>, f: seq<byte>, a: nat, b: nat)
    requires a <= b <= |m| == |f|
    ensures m[..a] == f[..a] && m[b..] == f[b..] <==> forall i :: 0 <= i < |m| && !(a <= i < b) ==> m[i] == f[i]
  {
    if m[..a] == f[..a] && m[b..] == f[b..] {
      var u, v := m[..a], m[b..];
      forall i | 0 <= i < |m| && !(a <= i < b) ensures m[i] == f[i] {
        if i < a { assert m[i] == u[i] == f[..a][i]; } else { assert m[i] == v[i - b] == f[b..][i - b]; }
      }
    }
  }

  lemma FlashCells(l: Link, r: nat, m: seq<byte>)
    requires GoodLink(l) && 1 <= r <= 1 + Total(l) && FlashHolds(l, r, m)
    ensures |m| == |l.flash|
    ensures var (from, to) := Sweeping(l);
            forall i :: 0 <= i < |m| && !(l.start <= i < l.start + l.max) ==>
              m[i] == if from <= i < to then BLANK else l.flash[i]
  {
    StartFits(l, r);
    hide Start, BlockCount, RoundUp, Padded;
    var p := Front(l, r);
    var (from, to) := Sweeping(l);
    var v0, v1, v2, v3 := m[..from], m[to..], m[from..l.start], m[l.start + |p|..to];
    assert l.flash[..from] == v0 && l.flash[to..] == v1;
    forall i | 0 <= i < |m| && !(l.start <= i < l.start + l.max)
      ensures m[i] == if from <= i < to then BLANK else l.flash[i]
    {
      if i < from { assert m[i] == v0[i] == l.flash[..from][i]; }
      else if i >= to { assert m[i] == v1[i - to] == l.flash[to..][i - to]; }
      else if i < l.start { assert m[i] == v2[i - from]; }
      else { assert m[i] == v3[i - l.start - |p|]; }
    }
  }

  /** The file is in flash, padded, and the rest of the grant is blank. */
  ghost predicate Delivered(l: Link, m: seq<byte>)
    requires GoodLink(l)
  {
    FlashHolds(l, 1 + Total(l), m)
  }

  lemma DeliveredMeans(l: Link, m: seq<byte>)
    requires GoodLink(l) && Delivered(l, m)
    ensures var n, r := |l.file|, (|l.file| + 127) / 128 * 128;
            && r <= l.max && l.start + l.max <= |m|
            && m[l.start..l.start + n] == l.file && m[l.start + n..l.start + r] == Repeat(0x1A, r - n)
  {
    StartFits(l, 1 + Total(l));
    LastBlockEnds(|l.file|);
    hide Start, Sweeping;
    assert Padded(l.file)[..|Padded(l.file)|] == Padded(l.file);
    PaddedHeld(l.file, m, l.start);
  }

  lemma PaddedHeld(file: seq<byte>, m: seq<byte>, start: nat)
    requires start + |Padded(file)| <= |m| && m[start..start + |Padded(file)|] == Padded(file)
    ensures m[start..start + |file|] == file
    ensures m[start + |file|..start + RoundUp(|file|)] == Repeat(0x1A, RoundUp(|file|) - |file|)
  {
    var p := Padded(file);
    assert m[start..start + |file|] == m[start..start + |p|][..|file|];
    assert m[start + |file|..start + |p|] == m[start..start + |p|][|file|..];
  }

  lemma LogStart(l: Link)
    ensures S.StoredBytes(LogAt(l, 1)) == []
  {
    S.LogAppend([], l.start, R.Opened(0, l.start));
    assert [] + [R.Opened(0, l.start)] == LogAt(l, 1);
  }

  lemma FrontStart(l: Link)
    requires GoodLink(l)
    ensures Front(l, 1) == []
  {
    StartFits(l, 1);
  }

  lemma LogStep(l: Link, r: nat)
    requires GoodLink(l) && 1 < r <= 1 + Total(l)
    ensures S.StoredBytes(LogAt(l, r)) == S.StoredBytes(LogAt(l, r - 1)) + BlockAt(l, r - 1)
  {
    var e := R.Stored((r - 1) % 256, l.start + Start(|l.file|, r - 1), BlockAt(l, r - 1));
    S.LogAppend(LogAt(l, r - 1), l.start, e);
  }

  lemma SliceGrows(p: seq<byte>, a: nat, b: nat)
    requires a <= b <= |p|
    ensures p[..b] == p[..a] + p[a..b]
  { }

  lemma FrontGrows(l: Link, k: nat)
    requires GoodLink(l) && 1 <= k <= Total(l)
    ensures Front(l, k + 1) == Front(l, k) + BlockAt(l, k)
  {
    NextStart(l, k);
    SliceGrows(Padded(l.file), Start(|l.file|, k), Start(|l.file|, k + 1));
  }

  /** The payloads the receiver logged by then are the front of the padded file. */
  lemma {:induction false} LogPayloads(l: Link, r: nat)
    requires GoodLink(l) && 1 <= r <= 1 + Total(l)
    ensures S.StoredBytes(LogAt(l, r)) == Front(l, r)
    decreases r
  {
    hide GoodLink, Front, LogAt, S.StoredBytes, Total, BlockAt;
    if r == 1 {
      FrontStart(l);
      LogStart(l);
    } else {
      FrontGrows(l, r - 1);
      LogPayloads(l, r - 1);
      LogStep(l, r);
    }
  }

  /** What the invariant says of the data phase. Block `k` is being sent: the receiver has taken
      exactly blocks 1 to k - 1, or also `k`; nothing on the way can be mistaken for another
      packet modulo 256; and flash holds those blocks, each once and in order. */
  ghost predicate InLockstep(l: Link, s: Net, k: nat) {
    && GoodLink(l) && 1 <= k <= Total(l) && k <= s.rx.received <= k + 1
    && FlashHolds(l, s.rx.received, s.rx.chip.mem)
    && s.rx.log == LogAt(l, s.rx.received) && S.StoredBytes(s.rx.log) == Front(l, s.rx.received)
    && (forall i :: 0 <= i < |s.toRx| ==> s.toRx[i].Garbled? || IsPart(s.toRx[i], k - 1) || IsPart(s.toRx[i], k))
    && (s.rx.received == k + 1 ==> Only(s.toRx, k))
    && (s.rx.received == k ==> S.Acks(s.toTx) == 0)
  }

  lemma InvLockstep(l: Link, s: Net)
    requires Inv(l, s) && s.tx.phase.Data?
    ensures InLockstep(l, s, s.tx.phase.block) && s.tx.phase.at == Start(|l.file|, s.tx.phase.block)
  {
    ImageHolds(l, s.rx.received);
    LogPayloads(l, s.rx.received);
  }

  lemma InvDelivered(l: Link, s: Net)
    requires Inv(l, s)
    ensures s.tx.phase.EndFile? || s.tx.phase.EndSession? || s.tx.phase.LastEnd? ==> Delivered(l, s.rx.chip.mem)
    ensures s.rx.result.Some? && s.rx.result != Some(0) ==> s.rx.result == Some(Size(l)) && Delivered(l, s.rx.chip.mem)
    ensures s.tx.result == Some(0) ==> s.tx.phase.LastEnd?
  {
    hide FlashHolds, Image, LogAt, Front, Window, Closing, NoParts, Only, GoodLink, Start;
    ImageHolds(l, 1 + Total(l));
  }

  /** Stop-and-wait safety, whatever the channels lose, delay or garble. */
  lemma StopAndWaitSafe(l: Link, s0: Net, steps: seq<Step>)
    requires Initial(l, s0)
    ensures Inv(l, s0)
    ensures var s := DoAll(l, s0, steps);
            s.tx.phase.Data? ==>
              InLockstep(l, s, s.tx.phase.block) && s.tx.phase.at == Start(|l.file|, s.tx.phase.block)
  {
    InitialInv(l, s0);
    var s := DoAll(l, s0, steps);
    if s.tx.phase.Data? { InvLockstep(l, s); }
  }

  /** A sender that leaves the data loop normally leaves the whole file in flash, for the rest of
      the run; so does one that returns 0, and a receiver that returns a size returns that of
      the file. */
  lemma LeavingMeansDelivered(l: Link, s0: Net, steps: seq<Step>)
    requires Initial(l, s0)
    ensures Inv(l, s0)
    ensures var s := DoAll(l, s0, steps);
            && (s.tx.phase.EndFile? || s.tx.phase.EndSession? || s.tx.phase.LastEnd? || s.tx.result == Some(0) ==>
                  Delivered(l, s.rx.chip.mem))
            && (s.rx.result.Some? && s.rx.result != Some(0) ==>
                  s.rx.result == Some(Size(l)) && Delivered(l, s.rx.chip.mem))
  {
    InitialInv(l, s0);
    InvDelivered(l, DoAll(l, s0, steps));
  }

  // ---- the price of a lost acknowledgement ----

  /** The receiver has taken block `k` and no acknowledgement of it is left on the way. */
  ghost predicate Stalled(l: Link, s: Net, k: nat) {
    Inv(l, s) && s.tx.phase.Data? && s.tx.phase.block == k && s.rx.received == k + 1 && S.Acks(s.toTx) == 0
  }

  lemma OneAckLost(q: seq<byte>, i: nat)
    requires i < |q| && q[i] == ACK && S.Acks(q) <= 1
    ensures S.Acks(q[..i] + q[i + 1..]) == 0
  {
    assert q == q[..i] + q[i..] && q[i..][1..] == q[i + 1..];
    AcksConcat(q[..i], q[i..]);
    AcksHead(q[i..]);
    AcksConcat(q[..i], q[i + 1..]);
  }

  lemma AcksOfBlock(l: Link, s: Net)
    requires Inv(l, s) && s.tx.phase.Data?
    ensures S.Acks(s.toTx) <= s.rx.received - s.tx.phase.block
  {
    hide WfNet, RxAt, Window, Only;
  }

  lemma ByteLost(l: Link, s: Net, i: nat)
    requires WfNet(l, s) && i < |s.toTx|
    ensures Do(l, s, LoseByte(i)) == s.(toTx := s.toTx[..i] + s.toTx[i + 1..])
  { }

  /** Losing the one acknowledgement of the current block brings that about. */
  lemma AckLossStalls(l: Link, s: Net, i: nat)
    requires Inv(l, s) && s.tx.phase.Data? && s.rx.received == s.tx.phase.block + 1
    requires i < |s.toTx| && s.toTx[i] == ACK
    ensures Stalled(l, Do(l, s, LoseByte(i)), s.tx.phase.block)
  {
    assert WfNet(l, s);
    hide Do, Inv, WfNet, S.Acks;
    StepKeepsInv(l, s, LoseByte(i));
    AcksOfBlock(l, s);
    OneAckLost(s.toTx, i);
    ByteLost(l, s, i);
  }

  lemma StalledListens(l: Link, s: Net, step: Step, k: nat)
    requires Stalled(l, s, k) && (step.Deliver? || step.Poll?)
    ensures var s' := Do(l, s, step);
            s'.tx == s.tx && s'.rx.received == s.rx.received && S.Acks(s'.toTx) == 0
  {
    hide Arrive, R.Handle, Image, LogAt;
    if s.rx.result.None? && step.Poll? {
      FailedIgnored(l, s.rx);
      IgnoredAnswer(s, R.Handle(Setting(l), s.rx, Failed));
    } else if s.rx.result.None? && s.toRx != [] {
      PartArrives(l, s.rx, s.toRx[0], k);
      IgnoredAnswer(s, Arrive(l, s.rx, s.toRx[0]));
    }
  }

  lemma StepKeepsStalled(l: Link, s: Net, step: Step, k: nat)
    requires Stalled(l, s, k)
    ensures Inv(l, Do(l, s, step)) && Stalled(l, Do(l, s, step), k)
  {
    hide Settled, Arrive, R.Handle, PhaseOk, T.Message, S.Acks, GoodLink;
    StepKeepsInv(l, s, step);
    match step
    case Hear => if s.toTx != [] { AcksHead(s.toTx); }
    case LoseByte(i) => if i < |s.toTx| { AcksLose(s.toTx, i); }
    case Deliver => StalledListens(l, s, step, k);
    case Poll => StalledListens(l, s, step, k);
    case Send =>
    case TimeOut =>
    case LoseMessage(_) =>
    case Garble(_, _) =>
  }

  /** Because a block already taken is answered with NAK, a lost acknowledgement is never made
      good: the sender stays at that block whatever happens next, and can only give up. */
  lemma {:induction false} LostAckStalls(l: Link, s: Net, steps: seq<Step>, k: nat)
    requires Stalled(l, s, k)
    ensures Stalled(l, DoAll(l, s, steps), k)
    decreases |steps|
  {
    if steps != [] {
      StepKeepsStalled(l, s, steps[0], k);
      LostAckStalls(l, Do(l, s, steps[0]), steps[1..], k);
    }
  }
}
