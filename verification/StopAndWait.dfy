/** Sender and receiver over two channels that lose, delay and garble whole messages. */
module StopAndWait {
  import opened Bytes
  import opened Numerals
  import opened Packet
  import opened Blocks
  import opened Delivery
  import R = Receiver
  import S = ReceiverSafety
  import T = Sender

  /** `waiting` is set while the sender has sent and not yet read its answer. */
  datatype Net = Net(tx: T.Tx, waiting: bool, rx: R.Rx, toRx: seq<Message>, toTx: seq<byte>)

  /** What can happen next. Losing and garbling may strike any message on the way. */
  datatype Step =
    | Send
    | Hear
    | TimeOut
    | Deliver
    | Poll
    | LoseMessage(i: nat)
    | LoseByte(i: nat)
    | Garble(i: nat, packet: seq<byte>)

  ghost predicate WfNet(l: Link, s: Net) {
    GoodLink(l) && T.WfTx(JobOf(l), s.tx) && R.Wf(s.rx)
  }

  predicate Listening(s: Net) {
    s.tx.result.None? && (s.waiting || s.tx.phase.Await?)
  }

  /** The receiver's new output joins the way back. */
  function Answered(s: Net, rx: R.Rx): Net {
    s.(rx := rx, toTx := s.toTx + if |s.rx.out| <= |rx.out| then rx.out[|s.rx.out|..] else [])
  }

  /** One step; one that is not possible changes nothing. */
  function Do(l: Link, s: Net, step: Step): Net
    requires WfNet(l, s)
  {
    match step
    case Send =>
      if s.tx.result.None? && !s.waiting && !s.tx.phase.Await? then
        s.(tx := s.tx.(out := s.tx.out + T.Message(JobOf(l), s.tx)), waiting := true,
            toRx := s.toRx + [MessageOf(s.tx)])
      else s
    case Hear =>
      if Listening(s) && s.toTx != [] then
        s.(tx := T.React(JobOf(l), s.tx, Got(s.toTx[0])), waiting := false, toTx := s.toTx[1..])
      else s
    case TimeOut =>
      if Listening(s) then s.(tx := T.React(JobOf(l), s.tx, Silence), waiting := false) else s
    case Deliver =>
      if s.rx.result.None? && s.toRx != [] then
        Answered(s.(toRx := s.toRx[1..]), Arrive(l, s.rx, s.toRx[0]))
      else s
    case Poll =>
      if s.rx.result.None? then Answered(s, R.Handle(Setting(l), s.rx, Failed)) else s
    case LoseMessage(i) =>
      if i < |s.toRx| then s.(toRx := s.toRx[..i] + s.toRx[i + 1..]) else s
    case LoseByte(i) =>
      if i < |s.toTx| then s.(toTx := s.toTx[..i] + s.toTx[i + 1..]) else s
    case Garble(i, packet) =>
      if i < |s.toRx| then s.(toRx := s.toRx[i := Garbled(packet)]) else s
  }

  // ---- the invariant ----

  /** The packet with number `k`, counted from the header at 0. */
  predicate IsPart(m: Message, k: int) {
    if k == 0 then m.Header? else m.Block? && m.k == k
  }

  /** On the way are only packets k - 1 and k, all of the former before the latter. */
  ghost predicate Window(q: seq<Message>, k: nat) {
    && (forall i :: 0 <= i < |q| ==> q[i].Garbled? || IsPart(q[i], k - 1) || IsPart(q[i], k))
    && (forall i, j :: 0 <= i < j < |q| && IsPart(q[i], k) ==> !IsPart(q[j], k - 1))
  }

  ghost predicate Only(q: seq<Message>, k: nat) {
    forall i :: 0 <= i < |q| ==> q[i].Garbled? || IsPart(q[i], k)
  }

  /** After the last block: copies of it, then ends of transmission. */
  ghost predicate Closing(q: seq<Message>, k: nat) {
    && (forall i :: 0 <= i < |q| ==> q[i].Garbled? || IsPart(q[i], k) || q[i].EndOfTransmission?)
    && (forall i, j :: 0 <= i < j < |q| && q[i].EndOfTransmission? ==> !IsPart(q[j], k))
  }

  ghost predicate NoParts(q: seq<Message>, emptyToo: bool) {
    forall i :: 0 <= i < |q| ==> q[i].Garbled? || q[i].EndOfTransmission? || (emptyToo && q[i].EmptyHeader?)
  }

  /** The number of the packet the sender is at. */
  function Current(l: Link, phase: T.Phase): nat {
    match phase
    case Announce => 0
    case Await => 1
    case Data(_, block) => block
    case EndFile => 1 + Total(l)
    case EndSession => 1 + Total(l)
    case LastEnd => 1 + Total(l)
  }

  ghost predicate PhaseOk(l: Link, phase: T.Phase) {
    phase.Data? ==> 1 <= phase.block <= Total(l) && phase.at == Start(|l.file|, phase.block) < |l.file|
  }

  /** The file has been closed at the receiver: all of it is in flash, and nothing later changes that. */
  ghost predicate Complete(l: Link, rx: R.Rx)
    requires GoodLink(l)
  {
    && R.Wf(rx) && rx.received == 0 && rx.size == Size(l)
    && rx.chip.mem == Image(l, 1 + Total(l)) && rx.chip.powered
    && LogAt(l, 1 + Total(l)) <= rx.log
    && (forall i :: |LogAt(l, 1 + Total(l))| <= i < |rx.log| ==> rx.log[i].Closed? || rx.log[i].Ended?)
    && (rx.result.None? || rx.result == Some(0) || rx.result == Some(Size(l)))
  }

  /** Where the receiver can be, and what can be on the way, while the sender is at packet `k`.
      `acks` counts the acknowledgements the sender has not read yet. */
  ghost predicate InStep(l: Link, rx: R.Rx, toRx: seq<Message>, acks: nat, k: nat)
    requires GoodLink(l)
  {
    && k <= Total(l) && RxAt(l, rx.received, rx) && k <= rx.received <= k + 1
    && acks <= rx.received - k
    && Window(toRx, k) && (rx.received == k + 1 ==> Only(toRx, k))
  }

  ghost predicate Settled(l: Link, phase: T.Phase, rx: R.Rx, toRx: seq<Message>, acks: nat)
    requires GoodLink(l)
  {
    match phase
    case Announce => InStep(l, rx, toRx, acks, 0)
    case Await => RxAt(l, 1, rx) && acks == 0 && Only(toRx, 0)
    case Data(_, k) => InStep(l, rx, toRx, acks, k)
    case EndFile =>
      || (RxAt(l, 1 + Total(l), rx) && acks == 0 && Closing(toRx, Total(l)))
      || (Complete(l, rx) && NoParts(toRx, false))
    case EndSession => Complete(l, rx) && NoParts(toRx, true)
    case LastEnd => Complete(l, rx) && NoParts(toRx, true)
  }

  ghost predicate Inv(l: Link, s: Net) {
    && WfNet(l, s) && PhaseOk(l, s.tx.phase) && Settled(l, s.tx.phase, s.rx, s.toRx, S.Acks(s.toTx))
    && (s.tx.result == Some(0) ==> s.tx.phase.LastEnd?)
  }

  // ---- acknowledgements on the way back ----

  lemma {:induction false} AcksConcat(a: seq<byte>, b: seq<byte>)
    ensures S.Acks(a + b) == S.Acks(a) + S.Acks(b)
    decreases |b|
  {
    if b == [] {
      assert a + b == a;
    } else {
      var c := b[..|b| - 1];
      AcksConcat(a, c);
      assert a + b == (a + c) + [b[|b| - 1]];
      S.AcksAppend(a + c, b[|b| - 1]);
      assert b == c + [b[|b| - 1]];
    }
  }

  lemma AcksHead(q: seq<byte>)
    requires q != []
    ensures S.Acks(q) == (if q[0] == ACK then 1 else 0) + S.Acks(q[1..])
  {
    assert q == [q[0]] + q[1..];
    AcksConcat([q[0]], q[1..]);
    assert [] + [q[0]] == [q[0]];
    S.AcksAppend([], q[0]);
  }

  lemma AcksLose(q: seq<byte>, i: nat)
    requires i < |q|
    ensures S.Acks(q[..i] + q[i + 1..]) <= S.Acks(q)
  {
    AcksConcat(q[..i], q[i + 1..]);
    AcksConcat(q[..i], q[i..]);
    assert q == q[..i] + q[i..];
    AcksHead(q[i..]);
    assert q[i..][1..] == q[i + 1..];
  }

  // ---- messages on the way out ----

  /** Losing or garbling a message on the way keeps what is known of the rest. */
  lemma QueueThinned(q: seq<Message>, i: nat, q': seq<Message>, k: nat)
    requires i < |q| && (q' == q[..i] + q[i + 1..] || exists packet :: q' == q[i := Garbled(packet)])
    ensures Window(q, k) ==> Window(q', k)
    ensures Only(q, k) ==> Only(q', k)
    ensures Closing(q, k) ==> Closing(q', k)
    ensures forall b :: NoParts(q, b) ==> NoParts(q', b)
  {
    if q' == q[..i] + q[i + 1..] {
      assert forall j :: 0 <= j < |q'| ==> q'[j] == q[if j < i then j else j + 1];
    } else {
      assert forall j :: 0 <= j < |q'| ==> q'[j] == q[j] || q'[j].Garbled?;
    }
  }

  lemma QueueTail(q: seq<Message>, k: nat)
    requires q != []
    ensures Window(q, k) ==> Window(q[1..], k) && (IsPart(q[0], k) ==> Only(q[1..], k))
    ensures Only(q, k) ==> Only(q[1..], k)
    ensures Closing(q, k) ==> Closing(q[1..], k) && (q[0].EndOfTransmission? ==> NoParts(q[1..], false))
    ensures forall b :: NoParts(q, b) ==> NoParts(q[1..], b)
  {
    var t := q[1..];
    assert forall j :: 0 <= j < |t| ==> t[j] == q[j + 1];
  }
}
