/** When the sender returns 0: exactly which states of its last two loops can still get there. */
module Ending {
  import opened Bytes
  import opened Packet
  import opened Numerals
  import opened Blocks
  import opened Delivery
  import opened StopAndWait
  import opened StopAndWaitSafety
  import opened EndToEnd
  import opened Stalling
  import R = Receiver
  import S = ReceiverSafety
  import T = Sender

  // ---- the condition ----

  predicate AtEnd(phase: T.Phase) { phase.EndSession? || phase.LastEnd? }

  predicate Draws(m: Message) { m.EndOfTransmission? || m.EmptyHeader? }

  /** A running receiver will acknowledge something that is on the way. */
  predicate AnswerComing(q: seq<Message>) { exists i :: 0 <= i < |q| && Draws(q[i]) }

  predicate EotComing(q: seq<Message>) { exists i :: 0 <= i < |q| && q[i].EndOfTransmission? }

  /** One more failed turn leaves the receiver running. */
  predicate Patient(rx: R.Rx) { (if rx.begun then rx.errors + 1 else rx.errors) <= R.MAX_ERRORS }

  predicate LastTry(tx: T.Tx) { tx.errors + 1 >= TRIES }

  /** The sender gets to send the empty header again with a try to spare. */
  predicate CanResend(s: Net) { !s.waiting || s.tx.errors + 2 < TRIES || s.toTx != [] || Patient(s.rx) }

  /** In the loop of the empty header. With all but one try used up, the end of transmission behind it
      needs an acknowledgement too, which a receiver that has returned will not send. */
  predicate EmptyCanEnd(s: Net) {
    if !LastTry(s.tx) then
      S.Acks(s.toTx) > 0 || (s.rx.result.None? && (CanResend(s) || AnswerComing(s.toRx)))
    else if s.rx.result.None? then S.Acks(s.toTx) > 0 || EotComing(s.toRx)
    else S.Acks(s.toTx) > 1
  }

  predicate LastCanEnd(s: Net) {
    || !LastTry(s.tx) || S.Acks(s.toTx) > 0
    || (s.rx.result.None? && (!s.waiting || AnswerComing(s.toRx)))
  }

  predicate CanEnd(s: Net) {
    || s.tx.result == Some(0)
    || (s.tx.result.None? && if s.tx.phase.LastEnd? then LastCanEnd(s) else EmptyCanEnd(s))
  }

  // ---- states without a way to 0 ----

  lemma EndFacts(l: Link, s: Net)
    requires Inv(l, s) && AtEnd(s.tx.phase)
    ensures WfNet(l, s) && GoodLink(l) && R.Wf(s.rx) && Complete(l, s.rx) && NoParts(s.toRx, true)
    ensures s.toRx != [] ==> s.toRx[0].Garbled? || Draws(s.toRx[0])
  {
    hide Complete;
  }

  lemma EotOfTail(q: seq<Message>)
    requires q != []
    ensures EotComing(q[1..]) ==> EotComing(q)
    ensures AnswerComing(q[1..]) ==> AnswerComing(q)
    ensures q[0].EndOfTransmission? ==> EotComing(q)
    ensures Draws(q[0]) ==> AnswerComing(q)
  {
    hide Draws;
    var t := q[1..];
    if EotComing(t) {
      var i :| 0 <= i < |t| && t[i].EndOfTransmission?;
      assert q[i + 1] == t[i];
    }
    if AnswerComing(t) {
      var i :| 0 <= i < |t| && Draws(t[i]);
      assert q[i + 1] == t[i];
    }
  }

  lemma EmptySent(q: seq<Message>)
    ensures EotComing(q + [EmptyHeader]) ==> EotComing(q)
  {
    if EotComing(q + [EmptyHeader]) {
      var i :| 0 <= i < |q + [EmptyHeader]| && (q + [EmptyHeader])[i].EndOfTransmission?;
      assert i < |q| && (q + [EmptyHeader])[i] == q[i];
    }
  }

  lemma ThinnedComing(q: seq<Message>, i: nat, q': seq<Message>)
    requires i < |q| && (q' == q[..i] + q[i + 1..] || exists packet :: q' == q[i := Garbled(packet)])
    ensures EotComing(q') ==> EotComing(q)
    ensures AnswerComing(q') ==> AnswerComing(q)
  {
    if q' == q[..i] + q[i + 1..] {
      assert forall j :: 0 <= j < |q'| ==> q'[j] == q[if j < i then j else j + 1];
    } else {
      assert forall j :: 0 <= j < |q'| ==> q'[j] == q[j] || q'[j].Garbled?;
    }
  }

  /** Steps of the sender. */
  lemma SendStaysOut(l: Link, s: Net)
    requires Inv(l, s) && AtEnd(s.tx.phase) && !CanEnd(s)
    ensures WfNet(l, s) && AtEnd(Do(l, s, Send).tx.phase) && !CanEnd(Do(l, s, Send))
  {
    hide Inv, T.Message, GoodLink, EotComing, AnswerComing, S.Acks;
    EndFacts(l, s);
    EmptySent(s.toRx);
  }

  lemma HearStaysOut(l: Link, s: Net)
    requires Inv(l, s) && AtEnd(s.tx.phase) && !CanEnd(s)
    ensures WfNet(l, s) && AtEnd(Do(l, s, Hear).tx.phase) && !CanEnd(Do(l, s, Hear))
  {
    hide Inv, GoodLink, EotComing, AnswerComing, S.Acks;
    EndFacts(l, s);
    if s.toTx != [] { AcksHead(s.toTx); }
  }

  lemma TimeOutStaysOut(l: Link, s: Net)
    requires Inv(l, s) && AtEnd(s.tx.phase) && !CanEnd(s)
    ensures WfNet(l, s) && AtEnd(Do(l, s, TimeOut).tx.phase) && !CanEnd(Do(l, s, TimeOut))
  {
    hide Inv, GoodLink, AnswerComing, S.Acks;
    EndFacts(l, s);
    EotIsAnswer(s.toRx);
  }

  lemma EotIsAnswer(q: seq<Message>)
    ensures EotComing(q) ==> AnswerComing(q)
  {
    if EotComing(q) {
      var i :| 0 <= i < |q| && q[i].EndOfTransmission?;
      assert Draws(q[i]);
    }
  }

  lemma FewerStaysOut(s: Net, s': Net)
    requires s'.tx == s.tx && s'.rx == s.rx && s'.waiting == s.waiting && !CanEnd(s)
    requires S.Acks(s'.toTx) <= S.Acks(s.toTx) && (s.toTx == [] ==> s'.toTx == [])
    requires EotComing(s'.toRx) ==> EotComing(s.toRx)
    requires AnswerComing(s'.toRx) ==> AnswerComing(s.toRx)
    ensures !CanEnd(s')
  {
    hide EotComing, AnswerComing, S.Acks;
  }

  /** Steps of the channels. */
  lemma LossStaysOut(l: Link, s: Net, step: Step)
    requires Inv(l, s) && AtEnd(s.tx.phase) && !CanEnd(s) && (step.LoseMessage? || step.LoseByte? || step.Garble?)
    ensures WfNet(l, s) && AtEnd(Do(l, s, step).tx.phase) && !CanEnd(Do(l, s, step))
  {
    hide Inv, GoodLink, EotComing, AnswerComing, S.Acks, CanEnd;
    EndFacts(l, s);
    match step
    case LoseMessage(i) =>
      if i < |s.toRx| {
        ThinnedComing(s.toRx, i, s.toRx[..i] + s.toRx[i + 1..]);
        FewerStaysOut(s, s.(toRx := s.toRx[..i] + s.toRx[i + 1..]));
      }
    case Garble(i, packet) =>
      if i < |s.toRx| {
        ThinnedComing(s.toRx, i, s.toRx[i := Garbled(packet)]);
        FewerStaysOut(s, s.(toRx := s.toRx[i := Garbled(packet)]));
      }
    case LoseByte(i) =>
      if i < |s.toTx| {
        AcksLose(s.toTx, i);
        FewerStaysOut(s, s.(toTx := s.toTx[..i] + s.toTx[i + 1..]));
      }
  }

  /** A failed turn of the receiver: a poll, or a garbled message. */
  lemma FailedStaysOut(l: Link, s: Net, rx: R.Rx)
    requires AtEnd(s.tx.phase) && !CanEnd(s) && s.rx.result.None? && Ignored(s.rx, rx)
    requires rx.result.Some? || Patient(s.rx)
    ensures !CanEnd(Answered(s, rx)) && Answered(s, rx).tx == s.tx
  {
    hide EotComing, AnswerComing, S.Acks, R.Wf;
    IgnoredAnswer(s, rx);
  }

  lemma FailedTurn(l: Link, rx: R.Rx)
    requires R.Wf(rx) && rx.result.None?
    ensures R.Handle(Setting(l), rx, Failed).result.Some? || Patient(rx)
  { }

  lemma PollStaysOut(l: Link, s: Net)
    requires Inv(l, s) && AtEnd(s.tx.phase) && !CanEnd(s)
    ensures WfNet(l, s) && Do(l, s, Poll).tx == s.tx && !CanEnd(Do(l, s, Poll))
  {
    hide Inv, GoodLink, CanEnd, R.Handle;
    EndFacts(l, s);
    if s.rx.result.None? {
      FailedIgnored(l, s.rx);
      FailedTurn(l, s.rx);
      FailedStaysOut(l, s, R.Handle(Setting(l), s.rx, Failed));
    }
  }

  lemma GarbledTurn(l: Link, rx: R.Rx, m: Message)
    requires R.Wf(rx) && rx.result.None? && m.Garbled?
    ensures Ignored(rx, Arrive(l, rx, m)) && (Arrive(l, rx, m).result.Some? || Patient(rx))
  {
    hide R.Handle, Ignored;
    GarbledIgnored(l, rx, m);
    FailedTurn(l, if |m.packet| == BUFFER_SIZE then rx.(packet := m.packet) else rx);
  }

  lemma TailStaysOut(s: Net)
    requires !CanEnd(s) && s.toRx != []
    ensures !CanEnd(s.(toRx := s.toRx[1..]))
  {
    hide EotComing, AnswerComing, S.Acks;
    EotOfTail(s.toRx);
  }

  /** What a running receiver answers to what can be on the way. */
  lemma Acknowledged(l: Link, s: Net)
    requires Inv(l, s) && AtEnd(s.tx.phase) && s.rx.result.None? && s.toRx != [] && Draws(s.toRx[0])
    ensures WfNet(l, s)
    ensures var s' := Do(l, s, Deliver);
            && s'.tx == s.tx && s'.waiting == s.waiting && s'.toRx == s.toRx[1..]
            && s'.toTx == s.toTx + [ACK] && S.Acks(s'.toTx) == S.Acks(s.toTx) + 1
            && (s'.rx.result.None? <==> s.toRx[0].EndOfTransmission?)
  {
    hide Inv, GoodLink, Arrive, Complete, Answered, S.Acks, WfNet, Do;
    EndFacts(l, s);
    ReceivedNone(l, s.rx);
    DeliveredNow(l, s);
    if s.toRx[0].EndOfTransmission? { EotArrives(l, s.rx); } else { EmptyHeaderArrives(l, s.rx); }
    AnsweredWith(s.(toRx := s.toRx[1..]), Arrive(l, s.rx, s.toRx[0]), [ACK]);
    S.AcksAppend(s.toTx, ACK);
  }

  lemma ReceivedNone(l: Link, rx: R.Rx)
    requires GoodLink(l) && Complete(l, rx)
    ensures rx.received == 0
  { }

  lemma DeliverStaysOut(l: Link, s: Net)
    requires Inv(l, s) && AtEnd(s.tx.phase) && !CanEnd(s)
    ensures WfNet(l, s) && Do(l, s, Deliver).tx == s.tx && !CanEnd(Do(l, s, Deliver))
  {
    hide Inv, GoodLink, Arrive, Answered, EotComing, AnswerComing, S.Acks, WfNet, Do, Complete, NoParts, Ignored, R.Wf;
    EndFacts(l, s);
    if s.rx.result.None? && s.toRx != [] {
      EotOfTail(s.toRx);
      if s.toRx[0].Garbled? {
        DeliveredNow(l, s);
        GarbledTurn(l, s.rx, s.toRx[0]);
        TailStaysOut(s);
        FailedStaysOut(l, s.(toRx := s.toRx[1..]), Arrive(l, s.rx, s.toRx[0]));
      } else {
        Acknowledged(l, s);
      }
    } else {
      NotDelivered(l, s);
    }
  }

  lemma NotDelivered(l: Link, s: Net)
    requires WfNet(l, s) && (s.rx.result.Some? || s.toRx == [])
    ensures Do(l, s, Deliver) == s
  { }

  lemma StepStaysOut(l: Link, s: Net, step: Step)
    requires Inv(l, s) && AtEnd(s.tx.phase) && !CanEnd(s)
    ensures WfNet(l, s) && Inv(l, Do(l, s, step)) && AtEnd(Do(l, s, step).tx.phase) && !CanEnd(Do(l, s, step))
  {
    hide CanEnd, Do, Inv, WfNet;
    InvWf(l, s);
    StepKeepsInv(l, s, step);
    match step
    case Send => SendStaysOut(l, s);
    case Hear => HearStaysOut(l, s);
    case TimeOut => TimeOutStaysOut(l, s);
    case Deliver => DeliverStaysOut(l, s);
    case Poll => PollStaysOut(l, s);
    case LoseMessage(_) => LossStaysOut(l, s, step);
    case LoseByte(_) => LossStaysOut(l, s, step);
    case Garble(_, _) => LossStaysOut(l, s, step);
  }

  lemma {:induction false} StaysOut(l: Link, s: Net, steps: seq<Step>)
    requires Inv(l, s) && AtEnd(s.tx.phase) && !CanEnd(s)
    ensures DoAll(l, s, steps).tx.result != Some(0)
    decreases |steps|
  {
    hide Do, Inv;
    if steps != [] {
      StepStaysOut(l, s, steps[0]);
      StaysOut(l, Do(l, s, steps[0]), steps[1..]);
    }
  }

  // ---- ways to 0 ----

  /** An acknowledgement on the way can be the next byte read: what is before it can be lost. */
  lemma {:induction false} AckInFront(l: Link, s: Net) returns (s': Net)
    requires Inv(l, s) && AtEnd(s.tx.phase) && s.tx.result.None? && S.Acks(s.toTx) > 0
    ensures Reaches(l, s, s') && Inv(l, s') && s'.waiting && s'.toTx != [] && s'.toTx[0] == ACK
    ensures s'.tx == s.tx.(out := s'.tx.out) && s'.rx == s.rx && S.Acks(s'.toTx) == S.Acks(s.toTx)
    decreases |s.toTx|
  {
    InvWf(l, s);
    hide Inv, WfNet, Reaches, Do;
    ReachNothing(l, s);
    if s.toTx != [] {
      AcksHead(s.toTx);
      if s.toTx[0] != ACK {
        ReachMore(l, s, s, LoseByte(0));
        var s1 := Do(l, s, LoseByte(0));
        FirstLost(l, s);
        s' := AckInFront(l, s1);
        ReachOn(l, s, s1, s');
      } else if s.waiting {
        s' := s;
      } else {
        ReachMore(l, s, s, Send);
        s' := Do(l, s, Send);
        SentNow(l, s);
      }
    }
  }

  lemma AckHeard(l: Link, s: Net)
    requires WfNet(l, s) && AtEnd(s.tx.phase) && s.tx.result.None? && s.waiting && s.toTx != [] && s.toTx[0] == ACK
    ensures var s' := Do(l, s, Hear);
            && s' == s.(tx := s'.tx, waiting := false, toTx := s.toTx[1..])
            && s'.tx == if s.tx.phase.LastEnd? then s.tx.(result := Some(0)) else s.tx.(phase := T.LastEnd)
  {
    hide GoodLink;
  }

  lemma TimedOut(l: Link, s: Net)
    requires WfNet(l, s) && AtEnd(s.tx.phase) && s.tx.result.None? && s.waiting
    ensures Do(l, s, TimeOut) ==
              s.(tx := if s.tx.phase.LastEnd? && !LastTry(s.tx) then s.tx.(result := Some(0)) else T.Missed(s.tx),
                 waiting := false)
  {
    hide GoodLink;
  }

  /** In the last loop, with a try to spare: anything will do. */
  lemma LastSpare(l: Link, s: Net) returns (s': Net)
    requires Inv(l, s) && s.tx.phase.LastEnd? && s.tx.result.None? && !LastTry(s.tx)
    ensures Reaches(l, s, s') && s'.tx.result == Some(0)
  {
    InvWf(l, s);
    hide Inv, WfNet, Reaches, Do;
    ReachNothing(l, s);
    var s1 := s;
    if !s.waiting {
      ReachMore(l, s, s, Send);
      s1 := Do(l, s, Send);
      SentNow(l, s);
    }
    ReachMore(l, s, s1, TimeOut);
    TimedOut(l, s1);
    s' := Do(l, s1, TimeOut);
  }

  lemma LastAcked(l: Link, s: Net) returns (s': Net)
    requires Inv(l, s) && s.tx.phase.LastEnd? && s.tx.result.None? && S.Acks(s.toTx) > 0
    ensures Reaches(l, s, s') && s'.tx.result == Some(0)
  {
    hide Inv, WfNet, Reaches, Do;
    var s1 := AckInFront(l, s);
    InvWf(l, s1);
    ReachMore(l, s, s1, Hear);
    AckHeard(l, s1);
    s' := Do(l, s1, Hear);
  }

  /** A running receiver acknowledges what is on the way. */
  lemma AnswerReached(l: Link, s: Net, i: nat) returns (s': Net)
    requires Inv(l, s) && AtEnd(s.tx.phase) && s.rx.result.None? && i < |s.toRx| && Draws(s.toRx[i])
    ensures Reaches(l, s, s') && Inv(l, s') && s'.tx == s.tx && S.Acks(s'.toTx) == S.Acks(s.toTx) + 1
    ensures s.toRx[i].EndOfTransmission? ==> s'.rx.result.None?
  {
    hide Inv, WfNet, Reaches, Do, Draws, S.Acks;
    var s1 := BroughtForward(l, s, i);
    Acknowledged(l, s1);
    ReachMore(l, s, s1, Deliver);
    s' := Do(l, s1, Deliver);
  }

  /** What the sender sends next draws an acknowledgement from a running receiver. */
  lemma SendDraws(l: Link, s: Net) returns (s': Net)
    requires Inv(l, s) && AtEnd(s.tx.phase) && s.tx.result.None? && !s.waiting && s.rx.result.None?
    ensures Reaches(l, s, s') && Inv(l, s') && S.Acks(s'.toTx) > 0 && s'.tx == s.tx.(out := s'.tx.out)
  {
    InvWf(l, s);
    hide Inv, WfNet, Reaches, Do, S.Acks;
    ReachNothing(l, s);
    ReachMore(l, s, s, Send);
    var s1 := Do(l, s, Send);
    SentNow(l, s);
    assert s1.toRx[|s.toRx|] == MessageOf(s.tx);
    s' := AnswerReached(l, s1, |s.toRx|);
    ReachOn(l, s, s1, s');
  }

  lemma LastReaches(l: Link, s: Net) returns (s': Net)
    requires Inv(l, s) && s.tx.phase.LastEnd? && s.tx.result.None? && LastCanEnd(s)
    ensures Reaches(l, s, s') && s'.tx.result == Some(0)
  {
    hide Inv, Reaches, Draws, S.Acks;
    if !LastTry(s.tx) {
      s' := LastSpare(l, s);
    } else if S.Acks(s.toTx) > 0 {
      s' := LastAcked(l, s);
    } else {
      var s1: Net;
      if !s.waiting {
        s1 := SendDraws(l, s);
      } else {
        var i :| 0 <= i < |s.toRx| && Draws(s.toRx[i]);
        s1 := AnswerReached(l, s, i);
      }
      s' := LastAcked(l, s1);
      ReachOn(l, s, s1, s');
    }
  }

  /** An acknowledgement of the empty header, and then the last loop. */
  lemma EmptyAcked(l: Link, s: Net) returns (s': Net)
    requires Inv(l, s) && s.tx.phase.EndSession? && s.tx.result.None? && S.Acks(s.toTx) > 0
    requires !LastTry(s.tx) || s.rx.result.None? || S.Acks(s.toTx) > 1
    ensures Reaches(l, s, s') && s'.tx.result == Some(0)
  {
    hide Inv, WfNet, Reaches, Do, S.Acks, AnswerComing;
    var s1 := AckInFront(l, s);
    InvWf(l, s1);
    ReachMore(l, s, s1, Hear);
    AckHeard(l, s1);
    AcksHead(s1.toTx);
    var s2 := Do(l, s1, Hear);
    s' := LastReaches(l, s2);
    ReachOn(l, s, s2, s');
  }

  /** A sender with a try to spare gets to send the empty header again. */
  lemma Resendable(l: Link, s: Net) returns (s': Net)
    requires Inv(l, s) && s.tx.phase.EndSession? && s.tx.result.None? && !LastTry(s.tx)
    requires s.rx.result.None? && S.Acks(s.toTx) == 0 && CanResend(s)
    ensures Reaches(l, s, s') && Inv(l, s') && s'.tx.phase.EndSession? && s'.tx.result.None? && !LastTry(s'.tx)
    ensures s'.rx.result.None? && !s'.waiting
  {
    InvWf(l, s);
    hide Inv, WfNet, Reaches, Do, S.Acks;
    ReachNothing(l, s);
    if !s.waiting {
      s' := s;
    } else if s.tx.errors + 2 < TRIES {
      ReachMore(l, s, s, TimeOut);
      TimedOut(l, s);
      s' := Do(l, s, TimeOut);
    } else {
      var s1 := s;
      if s.toTx == [] {
        ReachMore(l, s, s, Poll);
        s1 := Do(l, s, Poll);
        PatientPoll(l, s);
      }
      InvWf(l, s1);
      AcksHead(s1.toTx);
      ReachMore(l, s, s1, Hear);
      OtherHeard(l, s1);
      s' := Do(l, s1, Hear);
    }
  }

  lemma PatientPoll(l: Link, s: Net)
    requires WfNet(l, s) && s.rx.result.None? && Patient(s.rx) && s.toTx == []
    ensures var s' := Do(l, s, Poll);
            s' == s.(rx := s'.rx, toTx := [CRC16]) && s'.rx.result.None? && S.Acks(s'.toTx) == 0
  {
    hide R.Handle, Answered, GoodLink, S.Acks, Do, WfNet;
    WfFacts(l, s);
    FailedAnswer(l, s);
    PolledNow(l, s);
    AnsweredWith(s, R.Handle(Setting(l), s.rx, Failed), [CRC16]);
    assert [] + [CRC16] == [CRC16];
    S.AcksAppend([], CRC16);
    NoAcks();
  }

  lemma NoAcks()
    ensures S.Acks([]) == 0
  { }

  lemma PolledNow(l: Link, s: Net)
    requires WfNet(l, s) && s.rx.result.None?
    ensures Do(l, s, Poll) == Answered(s, R.Handle(Setting(l), s.rx, Failed))
  { }

  lemma FailedAnswer(l: Link, s: Net)
    requires WfNet(l, s) && s.rx.result.None? && Patient(s.rx)
    ensures var rx := R.Handle(Setting(l), s.rx, Failed);
            rx.out == s.rx.out + [CRC16] && rx.result.None?
  {
    hide GoodLink;
  }

  lemma OtherHeard(l: Link, s: Net)
    requires WfNet(l, s) && s.tx.phase.EndSession? && s.tx.result.None? && s.waiting && s.toTx != [] && s.toTx[0] != ACK
    ensures Do(l, s, Hear) == s.(waiting := false, toTx := s.toTx[1..])
  {
    hide GoodLink;
  }

  lemma EmptyReaches(l: Link, s: Net) returns (s': Net)
    requires Inv(l, s) && s.tx.phase.EndSession? && s.tx.result.None? && EmptyCanEnd(s)
    ensures Reaches(l, s, s') && s'.tx.result == Some(0)
  {
    hide Inv, Reaches, Draws, S.Acks, CanResend;
    if S.Acks(s.toTx) > 0 {
      s' := EmptyAcked(l, s);
    } else {
      var s1: Net;
      if LastTry(s.tx) {
        var i :| 0 <= i < |s.toRx| && s.toRx[i].EndOfTransmission?;
        EotDraws(s.toRx[i]);
        s1 := AnswerReached(l, s, i);
      } else if AnswerComing(s.toRx) {
        var i :| 0 <= i < |s.toRx| && Draws(s.toRx[i]);
        s1 := AnswerReached(l, s, i);
      } else {
        var s0 := Resendable(l, s);
        s1 := SendDraws(l, s0);
        ReachOn(l, s, s0, s1);
      }
      s' := EmptyAcked(l, s1);
      ReachOn(l, s, s1, s');
    }
  }

  lemma EotDraws(m: Message)
    requires m.EndOfTransmission?
    ensures Draws(m)
  { }

  /** From any state of the sender's last two loops, some continuation makes it return 0 if and only
      if the condition holds. The file has been delivered in all of these states. */
  lemma StatusZeroIff(l: Link, s: Net)
    requires Inv(l, s) && AtEnd(s.tx.phase)
    ensures (exists steps :: DoAll(l, s, steps).tx.result == Some(0)) <==> CanEnd(s)
    ensures GoodLink(l) && Delivered(l, s.rx.chip.mem)
  {
    EndFacts(l, s);
    InvDelivered(l, s);
    hide Inv, EmptyCanEnd, LastCanEnd, Delivered, GoodLink;
    if CanEnd(s) {
      ReachNothing(l, s);
      var s' := s;
      if s.tx.result.None? {
        if s.tx.phase.LastEnd? { s' := LastReaches(l, s); } else { s' := EmptyReaches(l, s); }
      }
      var steps :| DoAll(l, s, steps) == s';
      assert DoAll(l, s, steps).tx.result == Some(0);
    } else {
      forall steps ensures DoAll(l, s, steps).tx.result != Some(0) { StaysOut(l, s, steps); }
    }
  }

  /** Once the receiver has returned, nothing but an acknowledgement on the way helps. */
  lemma ReturnedIff(l: Link, s: Net)
    requires Inv(l, s) && s.tx.phase.EndSession? && s.tx.result.None? && s.rx.result.Some?
    ensures (exists steps :: DoAll(l, s, steps).tx.result == Some(0)) <==>
              S.Acks(s.toTx) > if LastTry(s.tx) then 1 else 0
  {
    hide Inv;
    StatusZeroIff(l, s);
  }

  // ---- a delivered file reported as failed ----

  lemma {:induction false} GivesUp(l: Link, s: Net) returns (s': Net)
    requires Inv(l, s) && s.tx.phase.EndSession? && s.tx.result.None? && s.waiting && s.tx.errors < TRIES
    ensures Reaches(l, s, s') && Inv(l, s') && s'.rx == s.rx && s'.tx.result == Some(TRIES) && s'.tx.phase.EndSession?
    decreases TRIES - s.tx.errors
  {
    hide Inv, WfNet, Reaches, Do;
    var s1 := OneTry(l, s);
    if s1.tx.result.Some? {
      s' := s1;
    } else {
      s' := GivesUp(l, s1);
      ReachOn(l, s, s1, s');
    }
  }

  /** A try that times out, and the next one. */
  lemma OneTry(l: Link, s: Net) returns (s': Net)
    requires Inv(l, s) && s.tx.phase.EndSession? && s.tx.result.None? && s.waiting && s.tx.errors < TRIES
    ensures Reaches(l, s, s') && Inv(l, s') && s'.rx == s.rx && s'.tx.phase.EndSession?
    ensures s'.tx.errors == s.tx.errors + 1
    ensures if LastTry(s.tx) then s'.tx.result == Some(TRIES) else s'.tx.result.None? && s'.waiting
  {
    InvWf(l, s);
    hide Inv, WfNet, Reaches, Do;
    ReachNothing(l, s);
    ReachMore(l, s, s, TimeOut);
    TimedOut(l, s);
    s' := Do(l, s, TimeOut);
    if s'.tx.result.None? {
      var s1 := s';
      SentNow(l, s1);
      ReachMore(l, s, s1, Send);
      s' := Do(l, s1, Send);
    }
  }

  /** From the start of any transfer: the whole file is in flash, the receiver has returned its size,
      the acknowledgement of the empty header is lost, and the sender returns 10. */
  lemma DeliveredButFailed(l: Link, s0: Net) returns (s: Net)
    requires Initial(l, s0)
    ensures Reaches(l, s0, s) && GoodLink(l) && Delivered(l, s.rx.chip.mem)
    ensures s.rx.result == Some(Size(l)) && s.tx.result == Some(10)
  {
    var s1 := FileClosed(l, s0);
    ClosedIs(l, s0, s1);
    hide Initial, Inv, Reaches, Do, WfNet, Closed, Delivered, Complete, Quiet, GoodLink, Arrive, S.Acks;
    SentNow(l, s1);
    ReachMore(l, s0, s1, Send);
    var s2 := Do(l, s1, Send);
    assert s2.toRx == [EmptyHeader];
    EmptyDelivered(l, s2);
    ReachMore(l, s0, s2, Deliver);
    var s3 := Do(l, s2, Deliver);
    FirstLost(l, s3);
    ReachMore(l, s0, s3, LoseByte(0));
    var s4 := Do(l, s3, LoseByte(0));
    s := GivesUp(l, s4);
    ReachOn(l, s0, s4, s);
    EndFacts(l, s);
    InvDelivered(l, s);
  }

  lemma EmptyDelivered(l: Link, s: Net)
    requires Inv(l, s) && s.tx.phase.EndSession? && s.rx.result.None? && s.toRx == [EmptyHeader] && s.toTx == []
    ensures WfNet(l, s)
    ensures var s' := Do(l, s, Deliver);
            s' == s.(rx := s'.rx, toRx := [], toTx := [ACK]) && s'.rx.result == Some(Size(l))
  {
    EndFacts(l, s);
    SizeKnown(l, s.rx);
    hide Inv, Arrive, Answered, Complete, NoParts, Do;
    DeliveredNow(l, s);
    EmptyHeaderArrives(l, s.rx);
    AnsweredWith(s.(toRx := s.toRx[1..]), Arrive(l, s.rx, EmptyHeader), [ACK]);
    assert s.toRx[1..] == [] && [] + [ACK] == [ACK];
  }

  lemma SizeKnown(l: Link, rx: R.Rx)
    requires GoodLink(l) && Complete(l, rx)
    ensures rx.size == Size(l) && rx.received == 0
  { }

  /** All goes well until both ends have closed the file. */
  lemma FileClosed(l: Link, s0: Net) returns (s: Net)
    requires Initial(l, s0)
    ensures Reaches(l, s0, s) && Closed(l, s0, s)
  {
    hide *;
    var s1 := ReachStage(l, s0, 1 + Total(l));
    s := CloseStage(l, s0, s1);
    ReachAll(l, s0, s1, Exchange(s1.tx.phase));
  }

  lemma ClosedIs(l: Link, s0: Net, s: Net)
    requires Closed(l, s0, s)
    ensures Inv(l, s) && WfNet(l, s) && s.tx.phase == T.EndSession && s.tx.errors == 0 && s.tx.result.None?
    ensures !s.waiting && s.toRx == [] && s.toTx == [] && s.rx.result.None?
  {
    hide RxReads, TxReads;
    InvWf(l, s);
  }
}
