/** When a lost acknowledgement ends a transfer: exactly which states the sender can leave. */
module Stalling {
  import opened Bytes
  import opened Packet
  import opened Numerals
  import opened Blocks
  import opened Delivery
  import opened StopAndWait
  import opened StopAndWaitSafety
  import opened EndToEnd
  import R = Receiver
  import S = ReceiverSafety
  import T = Sender

  // ---- what steps can reach ----

  ghost predicate Reaches(l: Link, s: Net, s': Net) {
    Inv(l, s) && exists steps :: DoAll(l, s, steps) == s'
  }

  lemma {:induction false} DoAllConcat(l: Link, s: Net, a: seq<Step>, b: seq<Step>)
    requires Inv(l, s)
    ensures DoAll(l, s, a + b) == DoAll(l, DoAll(l, s, a), b)
    decreases |a|
  {
    hide Inv, Do, WfNet;
    if a == [] {
      assert a + b == b;
    } else {
      InvWf(l, s);
      StepKeepsInv(l, s, a[0]);
      assert (a + b)[0] == a[0] && (a + b)[1..] == a[1..] + b;
      DoAllConcat(l, Do(l, s, a[0]), a[1..], b);
    }
  }

  lemma ReachNothing(l: Link, s: Net)
    requires Inv(l, s)
    ensures Reaches(l, s, s)
  {
    hide Inv;
    assert DoAll(l, s, []) == s;
  }

  lemma ReachMore(l: Link, s: Net, s1: Net, step: Step)
    requires Reaches(l, s, s1)
    ensures Inv(l, s1) && WfNet(l, s1) && Inv(l, Do(l, s1, step)) && Reaches(l, s, Do(l, s1, step))
  {
    hide Inv, Do, WfNet;
    var steps :| DoAll(l, s, steps) == s1;
    InvWf(l, s1);
    StepKeepsInv(l, s1, step);
    assert [step][1..] == [];
    assert DoAll(l, s1, [step]) == DoAll(l, Do(l, s1, step), []);
    DoAllConcat(l, s, steps, [step]);
  }

  lemma ReachAll(l: Link, s: Net, s1: Net, steps: seq<Step>)
    requires Reaches(l, s, s1)
    ensures Inv(l, s1) && Reaches(l, s, DoAll(l, s1, steps))
  {
    hide Inv, Do;
    var before :| DoAll(l, s, before) == s1;
    DoAllConcat(l, s, before, steps);
  }

  lemma ReachOn(l: Link, s: Net, s1: Net, s2: Net)
    requires Reaches(l, s, s1) && Reaches(l, s1, s2)
    ensures Reaches(l, s, s2)
  {
    var steps :| DoAll(l, s1, steps) == s2;
    ReachAll(l, s, s1, steps);
  }

  lemma MessageLost(l: Link, s: Net, i: nat)
    requires WfNet(l, s) && i < |s.toRx|
    ensures Do(l, s, LoseMessage(i)) == s.(toRx := s.toRx[..i] + s.toRx[i + 1..])
  { }

  lemma FirstLost(l: Link, s: Net)
    requires WfNet(l, s)
    ensures s.toRx != [] ==> Do(l, s, LoseMessage(0)) == s.(toRx := s.toRx[1..])
    ensures s.toTx != [] ==> Do(l, s, LoseByte(0)) == s.(toTx := s.toTx[1..])
  {
    hide Do, WfNet;
    if s.toRx != [] {
      MessageLost(l, s, 0);
      assert s.toRx[..0] + s.toRx[1..] == s.toRx[1..];
    }
    if s.toTx != [] {
      ByteLost(l, s, 0);
      assert s.toTx[..0] + s.toTx[1..] == s.toTx[1..];
    }
  }

  lemma SentNow(l: Link, s: Net)
    requires WfNet(l, s) && s.tx.result.None? && !s.waiting && !s.tx.phase.Await?
    ensures var s' := Do(l, s, Send);
            && s' == s.(tx := s'.tx, waiting := true, toRx := s.toRx + [MessageOf(s.tx)])
            && s'.tx == s.tx.(out := s'.tx.out)
  { }

  lemma DeliveredNow(l: Link, s: Net)
    requires WfNet(l, s) && s.rx.result.None? && s.toRx != []
    ensures Do(l, s, Deliver) == Answered(s.(toRx := s.toRx[1..]), Arrive(l, s.rx, s.toRx[0]))
  { }

  // ---- when a packet can be left behind ----

  /** The sender is at the header or at a block. */
  predicate AtPacket(phase: T.Phase) { phase.Announce? || phase.Data? }

  predicate OnTheWay(q: seq<Message>, k: nat) { exists i :: 0 <= i < |q| && IsPart(q[i], k) }

  /** The packet the sender is at can still reach a receiver that waits for it. While it waits for
      an answer to its tenth attempt at a block, only if a copy is on the way. */
  ghost predicate CanArrive(l: Link, s: Net) {
    && s.rx.received == Current(l, s.tx.phase) && s.rx.result.None?
    && (s.tx.phase.Data? && s.waiting && s.tx.errors + 1 >= TRIES ==> OnTheWay(s.toRx, Current(l, s.tx.phase)))
  }

  const TRIES := T.TRIES

  ghost predicate CanLeave(l: Link, s: Net) {
    s.tx.result.None? && (S.Acks(s.toTx) > 0 || CanArrive(l, s))
  }

  /** At a packet, with no way past it. */
  ghost predicate Stuck(l: Link, s: Net) {
    Inv(l, s) && AtPacket(s.tx.phase) && !CanLeave(l, s)
  }

  lemma PacketFacts(l: Link, s: Net)
    requires Inv(l, s) && AtPacket(s.tx.phase)
    ensures GoodLink(l) && R.Wf(s.rx) && InStep(l, s.rx, s.toRx, S.Acks(s.toTx), Current(l, s.tx.phase))
    ensures s.tx.phase.Announce? && s.rx.received == 0 ==> Polling(s.rx)
  {
    hide Window, Only, WfNet;
    assert WfNet(l, s);
    WfFacts(l, s);
  }

  lemma WfFacts(l: Link, s: Net)
    requires WfNet(l, s)
    ensures GoodLink(l) && R.Wf(s.rx) && T.WfTx(JobOf(l), s.tx)
  { }

  /** Steps of the sender alone. */
  lemma SenderKeepsStuck(l: Link, s: Net, step: Step)
    requires Stuck(l, s) && (step.Send? || step.Hear? || step.TimeOut?)
    ensures WfNet(l, s) && Inv(l, Do(l, s, step))
    ensures Stuck(l, Do(l, s, step)) && Do(l, s, step).tx.phase == s.tx.phase
  {
    hide Inv, InStep, WfNet, RxAt, T.Message;
    StepKeepsInv(l, s, step);
    InvWf(l, s);
    PacketFacts(l, s);
    if s.toTx != [] { AcksHead(s.toTx); }
    if step.Send? { SentOnTheWay(s.toRx, MessageOf(s.tx), Current(l, s.tx.phase)); }
  }

  lemma SentOnTheWay(q: seq<Message>, m: Message, k: nat)
    ensures OnTheWay(q, k) ==> OnTheWay(q + [m], k)
  {
    if OnTheWay(q, k) {
      var i :| 0 <= i < |q| && IsPart(q[i], k);
      assert (q + [m])[i] == q[i];
    }
  }

  lemma HeadOnTheWay(q: seq<Message>, k: nat)
    requires q != []
    ensures IsPart(q[0], k) ==> OnTheWay(q, k)
  { }

  lemma TailOnTheWay(q: seq<Message>, k: nat)
    requires q != [] && OnTheWay(q[1..], k)
    ensures OnTheWay(q, k)
  {
    var i :| 0 <= i < |q[1..]| && IsPart(q[1..][i], k);
    assert q[1..][i] == q[i + 1];
  }

  lemma ThinnedOnTheWay(q: seq<Message>, i: nat, q': seq<Message>, k: nat)
    requires i < |q| && (q' == q[..i] + q[i + 1..] || exists packet :: q' == q[i := Garbled(packet)])
    ensures OnTheWay(q', k) ==> OnTheWay(q, k)
  {
    if OnTheWay(q', k) {
      var j :| 0 <= j < |q'| && IsPart(q'[j], k);
      if q' == q[..i] + q[i + 1..] {
        assert q'[j] == q[if j < i then j else j + 1];
      } else {
        assert q'[j] == q[j];
      }
    }
  }

  /** Steps of the channels. */
  lemma LossKeepsStuck(l: Link, s: Net, step: Step)
    requires Stuck(l, s) && (step.LoseMessage? || step.LoseByte? || step.Garble?)
    ensures WfNet(l, s) && Inv(l, Do(l, s, step))
    ensures Stuck(l, Do(l, s, step)) && Do(l, s, step).tx.phase == s.tx.phase
  {
    hide Inv, WfNet, OnTheWay, S.Acks, Current;
    StepKeepsInv(l, s, step);
    var k := Current(l, s.tx.phase);
    InvWf(l, s);
    match step
    case LoseMessage(i) =>
      if i < |s.toRx| {
        MessageLost(l, s, i);
        ThinnedOnTheWay(s.toRx, i, s.toRx[..i] + s.toRx[i + 1..], k);
      }
    case Garble(i, packet) =>
      if i < |s.toRx| { ThinnedOnTheWay(s.toRx, i, s.toRx[i := Garbled(packet)], k); }
    case LoseByte(i) =>
      if i < |s.toTx| {
        ByteLost(l, s, i);
        AcksLose(s.toTx, i);
      }
  }

  /** Turns of the receiver: it has the packet already, or what arrives is another one. */
  lemma DeliverKeepsStuck(l: Link, s: Net)
    requires Stuck(l, s)
    ensures WfNet(l, s) && Inv(l, Do(l, s, Deliver))
    ensures Stuck(l, Do(l, s, Deliver)) && Do(l, s, Deliver).tx == s.tx
  {
    hide Inv, InStep, WfNet, RxAt, OnTheWay, Arrive, IsPart, Current, S.Acks, T.Message;
    StepKeepsInv(l, s, Deliver);
    PacketFacts(l, s);
    InvWf(l, s);
    var k := Current(l, s.tx.phase);
    if s.tx.result.None? && s.rx.result.None? && s.toRx != [] {
      HeadOf(l, s, k);
      HeadOnTheWay(s.toRx, k);
      PartArrives(l, s.rx, s.toRx[0], k);
      IgnoredAnswer(s.(toRx := s.toRx[1..]), Arrive(l, s.rx, s.toRx[0]));
      if OnTheWay(s.toRx[1..], k) { TailOnTheWay(s.toRx, k); }
    }
  }

  lemma HeadOf(l: Link, s: Net, k: nat)
    requires GoodLink(l) && InStep(l, s.rx, s.toRx, S.Acks(s.toTx), k) && s.toRx != []
    ensures k <= Total(l) && RxAt(l, s.rx.received, s.rx) && k <= s.rx.received <= k + 1
    ensures var m := s.toRx[0]; m.Garbled? || IsPart(m, k) || (IsPart(m, k - 1) && s.rx.received == k)
  {
    hide RxAt;
  }

  lemma PollKeepsStuck(l: Link, s: Net)
    requires Stuck(l, s)
    ensures WfNet(l, s) && Inv(l, Do(l, s, Poll))
    ensures Stuck(l, Do(l, s, Poll)) && Do(l, s, Poll).tx == s.tx
  {
    hide Inv, InStep, WfNet, RxAt, OnTheWay, S.Acks, Current, R.Handle;
    StepKeepsInv(l, s, Poll);
    PacketFacts(l, s);
    InvWf(l, s);
    if s.rx.result.None? {
      FailedIgnored(l, s.rx);
      IgnoredAnswer(s, R.Handle(Setting(l), s.rx, Failed));
    }
  }

  lemma StepKeepsStuck(l: Link, s: Net, step: Step)
    requires Stuck(l, s)
    ensures WfNet(l, s) && Inv(l, Do(l, s, step))
    ensures Stuck(l, Do(l, s, step)) && Do(l, s, step).tx.phase == s.tx.phase
  {
    hide Stuck, Do, Inv, WfNet;
    match step
    case Send => SenderKeepsStuck(l, s, step);
    case Hear => SenderKeepsStuck(l, s, step);
    case TimeOut => SenderKeepsStuck(l, s, step);
    case Deliver => DeliverKeepsStuck(l, s);
    case Poll => PollKeepsStuck(l, s);
    case LoseMessage(_) => LossKeepsStuck(l, s, step);
    case LoseByte(_) => LossKeepsStuck(l, s, step);
    case Garble(_, _) => LossKeepsStuck(l, s, step);
  }

  lemma {:induction false} StuckStays(l: Link, s: Net, steps: seq<Step>)
    requires Stuck(l, s)
    ensures Inv(l, s) && DoAll(l, s, steps).tx.phase == s.tx.phase
    decreases |steps|
  {
    assert Inv(l, s);
    hide Stuck, Do, Inv;
    if steps != [] {
      StepKeepsStuck(l, s, steps[0]);
      StuckStays(l, Do(l, s, steps[0]), steps[1..]);
    }
  }

  // ---- ways past a packet ----

  /** An acknowledgement on the way is enough: what is before it in the channel can be lost. */
  lemma {:induction false} AckMoves(l: Link, s: Net) returns (s': Net)
    requires Inv(l, s) && AtPacket(s.tx.phase) && s.tx.result.None? && S.Acks(s.toTx) > 0
    ensures Reaches(l, s, s') && s'.tx.phase != s.tx.phase
    decreases |s.toTx|
  {
    PacketFacts(l, s);
    InvWf(l, s);
    hide Inv, InStep, WfNet, RxAt, Reaches, Do;
    ReachNothing(l, s);
    if s.toTx != [] {
      AcksHead(s.toTx);
      if s.toTx[0] == ACK {
        var s1 := s;
        if !s.waiting {
          ReachMore(l, s, s, Send);
          s1 := Do(l, s, Send);
          SentNow(l, s);
        }
        ReachMore(l, s, s1, Hear);
        s' := Do(l, s1, Hear);
        AckLeaves(l, s1);
      } else {
        ReachMore(l, s, s, LoseByte(0));
        var s1 := Do(l, s, LoseByte(0));
        FirstLost(l, s);
        s' := AckMoves(l, s1);
        ReachOn(l, s, s1, s');
      }
    }
  }

  lemma AckLeaves(l: Link, s: Net)
    requires WfNet(l, s) && AtPacket(s.tx.phase) && s.tx.result.None? && s.waiting && s.toTx != [] && s.toTx[0] == ACK
    ensures Do(l, s, Hear).tx.phase != s.tx.phase
  {
    hide GoodLink;
  }

  /** All that is on the way can be lost. */
  lemma {:induction false} Drained(l: Link, s: Net) returns (s': Net)
    requires Inv(l, s)
    ensures Reaches(l, s, s') && Inv(l, s') && s' == s.(toRx := [], toTx := [])
    decreases |s.toRx| + |s.toTx|
  {
    InvWf(l, s);
    hide Inv, WfNet, Reaches, Do;
    ReachNothing(l, s);
    if s.toRx == [] && s.toTx == [] {
      s' := s;
    } else {
      var step := if s.toRx != [] then LoseMessage(0) else LoseByte(0);
      ReachMore(l, s, s, step);
      var s1 := Do(l, s, step);
      FirstLost(l, s);
      s' := Drained(l, s1);
      ReachOn(l, s, s1, s');
    }
  }

  /** The packet the receiver waits for arrives: an acknowledgement is on the way. */
  lemma Arrives(l: Link, s: Net) returns (s': Net)
    requires Inv(l, s) && AtPacket(s.tx.phase) && s.rx.result.None?
    requires var k := Current(l, s.tx.phase); s.rx.received == k && s.toRx != [] && IsPart(s.toRx[0], k)
    ensures Reaches(l, s, s') && Inv(l, s') && s'.tx == s.tx && S.Acks(s'.toTx) > 0
  {
    PacketFacts(l, s);
    HeadOf(l, s, Current(l, s.tx.phase));
    InvWf(l, s);
    hide Inv, InStep, WfNet, RxAt, Reaches, Arrive, Do, Answered;
    ReachNothing(l, s);
    DeliveredNow(l, s);
    ReachMore(l, s, s, Deliver);
    s' := Do(l, s, Deliver);
    PartAccepted(l, s.rx.received, s.rx, s.toRx[0]);
    AckCounts();
    var rx := Arrive(l, s.rx, s.toRx[0]);
    AnsweredKeeps(s.(toRx := s.toRx[1..]), rx);
    AnswerAcks(s.(toRx := s.toRx[1..]), rx, if s.rx.received == 0 then [ACK, CRC16] else [ACK]);
  }

  lemma AnsweredKeeps(s: Net, rx: R.Rx)
    ensures Answered(s, rx).tx == s.tx && Answered(s, rx).toRx == s.toRx && Answered(s, rx).rx == rx
  { }

  /** What is before a message can be lost. */
  lemma {:induction false} BroughtForward(l: Link, s: Net, i: nat) returns (s': Net)
    requires Inv(l, s) && i < |s.toRx|
    ensures Reaches(l, s, s') && Inv(l, s') && s' == s.(toRx := s.toRx[i..])
    decreases i
  {
    InvWf(l, s);
    hide Inv, WfNet, Reaches, Do;
    ReachNothing(l, s);
    if i == 0 {
      s' := s;
      assert s.toRx[0..] == s.toRx;
    } else {
      ReachMore(l, s, s, LoseMessage(0));
      var s1 := Do(l, s, LoseMessage(0));
      FirstLost(l, s);
      assert s.toRx[1..][i - 1..] == s.toRx[i..];
      s' := BroughtForward(l, s1, i - 1);
      ReachOn(l, s, s1, s');
    }
  }

  /** A sender that is still running and has tries left gets to send again. */
  lemma Ready(l: Link, s: Net) returns (s': Net)
    requires Inv(l, s) && AtPacket(s.tx.phase) && s.tx.result.None? && s.rx.result.None?
    requires s.rx.received == Current(l, s.tx.phase)
    requires s.tx.phase.Announce? || !s.waiting || s.tx.errors + 1 < TRIES
    ensures Reaches(l, s, s') && Inv(l, s') && s'.tx.phase == s.tx.phase && s'.tx.result.None? && !s'.waiting
    ensures s'.toRx == [] && s'.toTx == [] && s'.rx.received == s.rx.received && s'.rx.result.None?
  {
    PacketFacts(l, s);
    InvWf(l, s);
    hide Inv, WfNet, Reaches, InStep, RxAt;
    s' := Drained(l, s);
    if s.waiting {
      InvWf(l, s');
      if s.tx.phase.Announce? {
        ReachMore(l, s, s', Poll);
        var s1 := Do(l, s', Poll);
        PolledOnce(l, s');
        ReachMore(l, s, s1, Hear);
        s' := Do(l, s1, Hear);
      } else {
        ReachMore(l, s, s', TimeOut);
        s' := Do(l, s', TimeOut);
      }
    }
  }

  lemma PolledOnce(l: Link, s: Net)
    requires WfNet(l, s) && Polling(s.rx) && s.toTx == []
    ensures var s' := Do(l, s, Poll);
            s'.tx == s.tx && s'.waiting == s.waiting && s'.toRx == s.toRx && s'.toTx == [CRC16]
            && s'.rx.received == s.rx.received && s'.rx.result.None?
  {
    hide GoodLink;
    assert [] + [CRC16] == [CRC16];
    assert (s.rx.out + [CRC16])[|s.rx.out|..] == [CRC16];
  }

  lemma ArrivalMoves(l: Link, s: Net) returns (s': Net)
    requires Inv(l, s) && AtPacket(s.tx.phase) && s.tx.result.None? && CanArrive(l, s)
    ensures Reaches(l, s, s') && s'.tx.phase != s.tx.phase
  {
    InvWf(l, s);
    hide Inv, WfNet, Reaches;
    var k := Current(l, s.tx.phase);
    var s1: Net;
    if s.tx.phase.Data? && s.waiting && s.tx.errors + 1 >= TRIES {
      var i :| 0 <= i < |s.toRx| && IsPart(s.toRx[i], k);
      s1 := BroughtForward(l, s, i);
    } else {
      var s0 := Ready(l, s);
      ReachMore(l, s, s0, Send);
      s1 := Do(l, s0, Send);
      SentIsPart(l, s0.tx);
    }
    var s2 := Arrives(l, s1);
    ReachOn(l, s, s1, s2);
    s' := AckMoves(l, s2);
    ReachOn(l, s, s2, s');
  }

  lemma SentIsPart(l: Link, tx: T.Tx)
    requires AtPacket(tx.phase)
    ensures tx.phase.Data? && tx.phase.block > 0 ==> IsPart(MessageOf(tx), Current(l, tx.phase))
    ensures tx.phase.Announce? ==> IsPart(MessageOf(tx), Current(l, tx.phase))
  { }

  /** From any state of the header or of a block, some continuation gets past it if and only if the
      sender is still running and either an acknowledgement of it is on the way, or the receiver
      still waits for it and can still get it. */
  lemma MovesOnIff(l: Link, s: Net)
    requires Inv(l, s) && AtPacket(s.tx.phase)
    ensures (exists steps :: DoAll(l, s, steps).tx.phase != s.tx.phase) <==> CanLeave(l, s)
  {
    hide Inv, CanArrive;
    if CanLeave(l, s) {
      var s': Net;
      if S.Acks(s.toTx) > 0 { s' := AckMoves(l, s); } else { s' := ArrivalMoves(l, s); }
      var steps :| DoAll(l, s, steps) == s';
      assert DoAll(l, s, steps).tx.phase != s.tx.phase;
    } else {
      forall steps ensures DoAll(l, s, steps).tx.phase == s.tx.phase { StuckStays(l, s, steps); }
    }
  }

  /** Once the receiver has the packet, nothing but an acknowledgement on the way helps. */
  lemma TakenLeftIff(l: Link, s: Net)
    requires Inv(l, s) && AtPacket(s.tx.phase) && s.rx.received == Current(l, s.tx.phase) + 1
    ensures (exists steps :: DoAll(l, s, steps).tx.phase != s.tx.phase)
            <==> s.tx.result.None? && S.Acks(s.toTx) > 0
  {
    hide Inv;
    MovesOnIff(l, s);
  }

  // ---- runs that lose an acknowledgement ----

  lemma {:induction false} ReachStage(l: Link, s0: Net, k: nat) returns (s: Net)
    requires Initial(l, s0) && 1 <= k <= 1 + Total(l)
    ensures Reaches(l, s0, s) && Stage(l, s0, s, k)
    decreases k
  {
    hide *;
    InitialInv(l, s0);
    ReachNothing(l, s0);
    if k == 1 {
      s := HeaderStage(l, s0);
      ReachAll(l, s0, s0, Exchange(s0.tx.phase));
    } else {
      var s1 := ReachStage(l, s0, k - 1);
      s := BlockStage(l, s0, s1, k - 1);
      ReachAll(l, s0, s1, Exchange(s1.tx.phase));
    }
  }

  /** Every block of every file can be the one a transfer ends at: all goes well up to it, its
      acknowledgement is lost, and the sender, running still, can never leave it. */
  lemma StallReachable(l: Link, s0: Net, k: nat) returns (s: Net)
    requires Initial(l, s0) && 1 <= k <= Total(l)
    ensures Reaches(l, s0, s) && Stalled(l, s, k) && s.tx.result.None?
    ensures forall steps :: DoAll(l, s, steps).tx.phase == s.tx.phase
  {
    var s1 := ReachStage(l, s0, k);
    BlockReady(l, s0, s1, k);
    StageInv(l, s0, s1, k);
    InvWf(l, s1);
    hide Initial, Inv, Stage, Reaches, Do, WfNet, RxAt, Arrive, Answered, Quiet, Start, Stalled;
    SentNow(l, s1);
    ReachMore(l, s0, s1, Send);
    var s2 := Do(l, s1, Send);
    DeliveredNow(l, s2);
    ReachMore(l, s0, s2, Deliver);
    var s3 := Do(l, s2, Deliver);
    PartAccepted(l, k, s2.rx, s2.toRx[0]);
    AnsweredWith(s2.(toRx := s2.toRx[1..]), Arrive(l, s2.rx, s2.toRx[0]), [ACK]);
    ReceivedCount(l, k + 1, s3.rx);
    ReachMore(l, s0, s3, LoseByte(0));
    AckLossStalls(l, s3, 0);
    s := Do(l, s3, LoseByte(0));
    ByteLost(l, s3, 0);
    NoWayOn(l, s, k);
  }

  lemma AnsweredWith(s: Net, rx: R.Rx, more: seq<byte>)
    requires rx.out == s.rx.out + more
    ensures Answered(s, rx) == s.(rx := rx, toTx := s.toTx + more)
  { }

  lemma ReceivedCount(l: Link, r: nat, rx: R.Rx)
    requires GoodLink(l) && RxAt(l, r, rx)
    ensures rx.received == r
  { }

  lemma NoWayOn(l: Link, s: Net, k: nat)
    requires Stalled(l, s, k)
    ensures Inv(l, s) && forall steps :: DoAll(l, s, steps).tx.phase == s.tx.phase
  {
    forall steps ensures DoAll(l, s, steps).tx.phase == s.tx.phase {
      LostAckStalls(l, s, steps, k);
      assert Stuck(l, s);
      StuckStays(l, s, steps);
    }
  }

  /** The receiver has the header, its acknowledgement is lost, and the line is clear. */
  ghost predicate HeaderLost(l: Link, s: Net) {
    && Inv(l, s) && s.tx.phase.Announce? && s.tx.result.None? && !s.waiting
    && s.rx.received == 1 && s.rx.result.None? && s.toRx == [] && s.toTx == []
  }

  lemma HeaderTurnedAway(l: Link, s: Net)
    requires HeaderLost(l, s)
    ensures GoodLink(l) && R.Wf(s.rx)
    ensures var rx' := Arrive(l, s.rx, Header);
            rx'.out == s.rx.out + [NAK] && rx'.received == 1 && rx'.result.None?
  {
    PacketFacts(l, s);
    hide Inv, InStep;
    HeaderFrame(l);
    FrameArrives(l, s.rx, 0, JobOf(l).header[PACKET_HEADER..], Header);
  }

  lemma NakHeard(l: Link, s: Net)
    requires WfNet(l, s) && s.tx.phase.Announce? && s.tx.result.None? && s.waiting && s.toTx == [NAK]
    ensures Do(l, s, Hear) == s.(waiting := false, toTx := [])
  { }

  /** On a line that loses nothing the header is sent, turned away, and sent again: a NAK is
      neither an acknowledgement nor counted as an error. */
  lemma HeaderRound(l: Link, s: Net)
    requires HeaderLost(l, s)
    ensures Inv(l, s)
    ensures var s' := DoAll(l, s, [Send, Deliver, Hear]);
            HeaderLost(l, s') && s'.tx == s.tx.(out := s.tx.out + BytesOf(l, Header))
  {
    HeaderTurnedAway(l, s);
    InvWf(l, s);
    SendsMessage(l, s.tx);
    assert Do(l, s, Send).tx.out == s.tx.out + BytesOf(l, Header);
    hide Inv, Do, WfNet, Arrive, Answered, BytesOf, DoAll, GoodLink;
    DoThree(l, s, Send, Deliver, Hear);
    SentNow(l, s);
    var s1 := Do(l, s, Send);
    InvWf(l, s1);
    assert s.toRx + [Header] == [Header];
    DoTwo(l, s1, Deliver, Hear);
    DeliveredNow(l, s1);
    AnsweredWith(s1.(toRx := s1.toRx[1..]), Arrive(l, s1.rx, s1.toRx[0]), [NAK]);
    var s2 := Do(l, s1, Deliver);
    assert [] + [NAK] == [NAK];
    InvWf(l, s2);
    NakHeard(l, s2);
    StepKeepsInv(l, s2, Hear);
  }

  function Rounds(l: Link, s: Net, n: nat): (s': Net)
    requires Inv(l, s)
    ensures Inv(l, s')
    decreases n
  {
    if n == 0 then s else Rounds(l, DoAll(l, s, [Send, Deliver, Hear]), n - 1)
  }

  /** That goes on for ever, without a fault and without an error counted. */
  lemma {:induction false} HeaderLoops(l: Link, s: Net, n: nat)
    requires HeaderLost(l, s)
    ensures Inv(l, s)
    ensures var s' := Rounds(l, s, n);
            HeaderLost(l, s') && s'.tx.errors == s.tx.errors && |s'.tx.out| == |s.tx.out| + n * |BytesOf(l, Header)|
    decreases n
  {
    hide *;
    LostInv(l, s);
    RoundsUnfold(l, s, n);
    if n > 0 {
      HeaderRound(l, s);
      HeaderLoops(l, DoAll(l, s, [Send, Deliver, Hear]), n - 1);
      OneMore(n, |BytesOf(l, Header)|);
    }
  }

  lemma LostInv(l: Link, s: Net)
    requires HeaderLost(l, s)
    ensures Inv(l, s)
  { }

  lemma RoundsUnfold(l: Link, s: Net, n: nat)
    requires Inv(l, s)
    ensures Rounds(l, s, n) == if n == 0 then s else Rounds(l, DoAll(l, s, [Send, Deliver, Hear]), n - 1)
  { }

  lemma OneMore(n: nat, c: nat)
    requires n > 0
    ensures n * c == (n - 1) * c + c
  { }

  /** How that begins: the header is taken, its ACK is lost, and the C that follows it is no ACK. */
  lemma HeaderLostReachable(l: Link, s0: Net) returns (s: Net)
    requires Initial(l, s0)
    ensures Reaches(l, s0, s) && HeaderLost(l, s)
  {
    InitialInv(l, s0);
    InitialQuiet(l, s0);
    InvWf(l, s0);
    hide Initial, Inv, Reaches, Do, WfNet, RxAt, Arrive, Answered, Quiet;
    ReachNothing(l, s0);
    SentNow(l, s0);
    ReachMore(l, s0, s0, Send);
    var s1 := Do(l, s0, Send);
    DeliveredNow(l, s1);
    ReachMore(l, s0, s1, Deliver);
    var s2 := Do(l, s1, Deliver);
    PartAccepted(l, 0, s1.rx, s1.toRx[0]);
    AnsweredWith(s1.(toRx := s1.toRx[1..]), Arrive(l, s1.rx, s1.toRx[0]), [ACK, CRC16]);
    ReceivedCount(l, 1, s2.rx);
    ReachMore(l, s0, s2, LoseByte(0));
    var s3 := Do(l, s2, LoseByte(0));
    FirstLost(l, s2);
    assert s3.toTx == [CRC16];
    ReachMore(l, s0, s3, Hear);
    CHeard(l, s3);
    s := Do(l, s3, Hear);
  }

  lemma CHeard(l: Link, s: Net)
    requires WfNet(l, s) && s.tx.phase.Announce? && s.tx.result.None? && s.waiting && s.toTx == [CRC16]
    ensures Do(l, s, Hear) == s.(waiting := false, toTx := [])
  { }

  // ---- the end of transmission ----

  lemma EotAnswered(l: Link, s: Net) returns (s': Net)
    requires Inv(l, s) && s.tx.phase.EndFile? && s.tx.result.None? && !s.waiting
    requires s.rx.result.None? && s.toRx == [] && s.toTx == []
    ensures Reaches(l, s, s') && s'.tx.phase == T.EndSession
  {
    InvWf(l, s);
    WfFacts(l, s);
    hide Inv, Reaches, Do, WfNet, Arrive, Answered;
    ReachNothing(l, s);
    SentNow(l, s);
    ReachMore(l, s, s, Send);
    var s1 := Do(l, s, Send);
    assert s1.toRx == [EndOfTransmission];
    DeliveredNow(l, s1);
    ReachMore(l, s, s1, Deliver);
    EotArrives(l, s1.rx);
    AnsweredWith(s1.(toRx := s1.toRx[1..]), Arrive(l, s1.rx, s1.toRx[0]), [ACK]);
    var s2 := Do(l, s1, Deliver);
    assert s2.toTx == [ACK];
    ReachMore(l, s, s2, Hear);
    EotHeard(l, s2);
    s' := Do(l, s2, Hear);
  }

  lemma EotHeard(l: Link, s: Net)
    requires WfNet(l, s) && s.tx.phase.EndFile? && s.tx.result.None? && s.waiting && s.toTx == [ACK]
    ensures Do(l, s, Hear).tx.phase == T.EndSession
  { }

  /** A lost acknowledgement of the end of transmission does no harm: the receiver answers every
      one of them, so that a sender with a try left always gets past it. */
  lemma EotRecovers(l: Link, s: Net) returns (s': Net)
    requires Inv(l, s) && s.tx.phase.EndFile? && s.tx.result.None? && s.rx.result.None?
    requires !s.waiting || s.tx.errors + 1 < TRIES
    ensures Reaches(l, s, s') && s'.tx.phase == T.EndSession
  {
    InvWf(l, s);
    hide Inv, WfNet, Reaches, Do;
    var s1 := Drained(l, s);
    if s.waiting {
      ReachMore(l, s, s1, TimeOut);
      EotMissed(l, s1);
      s1 := Do(l, s1, TimeOut);
    }
    var s2 := EotAnswered(l, s1);
    ReachOn(l, s, s1, s2);
    s' := s2;
  }

  lemma EotMissed(l: Link, s: Net)
    requires WfNet(l, s) && s.tx.phase.EndFile? && s.tx.result.None? && s.waiting && s.tx.errors + 1 < TRIES
    ensures var s' := Do(l, s, TimeOut);
            s' == s.(tx := s'.tx, waiting := false) && s'.tx == s.tx.(errors := s.tx.errors + 1)
  { }
}
