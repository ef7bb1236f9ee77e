/** What the receiver makes of each message the sender can put on the line. */
module Delivery {
  import opened Bytes
  import opened FlashMemory
  import opened Numerals
  import opened Packet
  import opened Block0
  import opened Blocks
  import R = Receiver
  import S = ReceiverSafety
  import F = ReceiverFlash
  import T = Sender

  /** One transfer: the file and its name, the flash granted to it, and what device that is. */
  datatype Link = Link(name: seq<byte>, file: seq<byte>, start: nat, max: nat, sectors: Sweep, readsBack: bool,
                       flash: seq<byte>)

  /** The padded file fits the grant. */
  ghost predicate GoodLink(l: Link) {
    GoodName(l.name, |l.file|) && RoundUp(|l.file|) <= l.max && l.start + l.max <= |l.flash|
  }

  function JobOf(l: Link): (job: T.Job)
    ensures |job.header| == PACKET_SIZE + PACKET_HEADER && job.file == l.file
  {
    T.Job(HeaderBytes(l.name, Digits(|l.file|)), l.file)
  }

  function Setting(l: Link): R.Config { R.Config([], l.sectors, l.readsBack, l.max) }

  /** The size as the receiver reads it. */
  function Size(l: Link): int { Signed(|l.file|) }

  function Total(l: Link): nat { BlockCount(|l.file|) }

  /** Block `k` of the file, from its offset. */
  function BlockAt(l: Link, k: nat): seq<byte> {
    if Start(|l.file|, k) < |l.file| then Payload(l.file, Start(|l.file|, k)) else []
  }

  /** Messages on the way to the receiver. `Garbled` is a packet that will be rejected, with
      whatever it leaves in the packet buffer. */
  datatype Message = Header | Block(k: nat) | EndOfTransmission | EmptyHeader | Garbled(packet: seq<byte>)

  function MessageOf(tx: T.Tx): Message {
    match tx.phase
    case Announce => Header
    case Await => Header
    case Data(_, block) => Block(block)
    case EndFile => EndOfTransmission
    case EndSession => EmptyHeader
    case LastEnd => EndOfTransmission
  }

  /** The bytes of a message that arrives whole. */
  function BytesOf(l: Link, m: Message): seq<byte> {
    match m
    case Header => JobOf(l).header + T.Trailer(JobOf(l).header[PACKET_HEADER..])
    case Block(k) =>
      var payload := BlockAt(l, k);
      if payload == [] then [] else Frame(k % 256, payload, T.Trailer(payload))
    case EndOfTransmission => [EOT]
    case EmptyHeader => T.EmptyHeader()
    case Garbled(_) => []
  }

  /** The receiver's turn when a message arrives. */
  function Arrive(l: Link, rx: R.Rx, m: Message): R.Rx
    requires R.Wf(rx)
  {
    if m.Garbled? then
      R.Handle(Setting(l), if |m.packet| == BUFFER_SIZE then rx.(packet := m.packet) else rx, Failed)
    else
      var (reply, packet, rest) := Scan(rx.packet, Ticks(BytesOf(l, m)));
      R.Handle(Setting(l), rx.(packet := packet), reply)
  }

  // ---- what the receiver makes of each message ----

  /** Where the erase for the grant begins and ends. */
  function Sweeping(l: Link): (nat, nat)
    requires l.start + l.max <= |l.flash|
  {
    Reach(l.sectors, l.start, l.max, |l.flash|)
  }

  /** Flash after that erase. */
  function Cleared(l: Link): (m: seq<byte>)
    requires l.start + l.max <= |l.flash|
    ensures |m| == |l.flash|
  {
    AfterSweep(l.flash, l.sectors, l.start, l.max, Works, false)
  }

  lemma ClearedIs(l: Link)
    requires l.start + l.max <= |l.flash|
    ensures var (from, to) := Sweeping(l);
            && Cleared(l)[l.start..l.start + l.max] == Blank(l.max)
            && (forall i :: 0 <= i < |l.flash| ==> Cleared(l)[i] == if from <= i < to then BLANK else l.flash[i])
  { }

  /** Flash once the receiver expects block `r`. */
  function Image(l: Link, r: nat): (m: seq<byte>)
    requires GoodLink(l) && r <= 1 + Total(l)
    ensures |m| == |l.flash|
  {
    if r == 0 then l.flash
    else
      StartFits(l, r);
      Splice(Cleared(l), l.start, Padded(l.file)[..Start(|l.file|, r)])
  }

  lemma StartFits(l: Link, r: nat)
    requires GoodLink(l) && 1 <= r <= 1 + Total(l)
    ensures Start(|l.file|, r) <= RoundUp(|l.file|) <= l.max
    ensures r <= Total(l) ==> Start(|l.file|, r) < |l.file|
  {
    if r <= Total(l) { BlocksLeft(|l.file|, r); } else { LastBlockEnds(|l.file|); }
  }

  /** The receiver's log once it expects block `r`: the header, then blocks 1 to r - 1, each once. */
  function LogAt(l: Link, r: nat): seq<R.Event>
    requires r <= 1 + Total(l)
  {
    if r == 0 then []
    else if r == 1 then [R.Opened(0, l.start)]
    else LogAt(l, r - 1) + [R.Stored((r - 1) % 256, l.start + Start(|l.file|, r - 1), BlockAt(l, r - 1))]
  }

  /** Before any header the receiver polls for ever: nothing counts as an error. */
  predicate Polling(rx: R.Rx) { !rx.begun && rx.errors == 0 && rx.result.None? }

  /** The receiver has taken exactly the packets 0 to r - 1. */
  ghost predicate RxAt(l: Link, r: nat, rx: R.Rx)
    requires GoodLink(l)
  {
    && R.Wf(rx) && r <= 1 + Total(l) && rx.received == r
    && rx.dest == l.start + (if r == 0 then 0 else Start(|l.file|, r))
    && rx.log == LogAt(l, r) && rx.chip.mem == Image(l, r) && rx.chip.powered
    && (r > 0 ==> rx.size == Size(l))
    && (r == 0 ==> Polling(rx))
    && (rx.result.None? || rx.result == Some(0))
  }

  /** Nothing but the packet buffer, the error count and the output moved, and no ACK was sent. */
  ghost predicate Ignored(rx: R.Rx, rx': R.Rx) {
    && R.Wf(rx') && rx'.received == rx.received && rx'.dest == rx.dest && rx'.log == rx.log && rx'.chip == rx.chip
    && rx'.size == rx.size && (rx'.result == rx.result || rx'.result == Some(0))
    && rx.out <= rx'.out && S.Acks(rx'.out[|rx.out|..]) == 0 && (Polling(rx) ==> Polling(rx'))
  }

  lemma FailedIgnored(l: Link, rx: R.Rx)
    requires R.Wf(rx)
    ensures Ignored(rx, R.Handle(Setting(l), rx, Failed))
  {
    var rx' := R.Handle(Setting(l), rx, Failed);
    assert rx'.out[|rx.out|..] == [CRC16] || rx'.out[|rx.out|..] == [CA, CA];
    S.AcksAppendTwo([], CA, CA);
    S.AcksAppend([], CRC16);
    assert [] + [CA, CA] == [CA, CA] && [] + [CRC16] == [CRC16];
  }

  /** A framed message arrives as a packet. */
  lemma FrameArrives(l: Link, rx: R.Rx, number: byte, payload: seq<byte>, m: Message)
    requires R.Wf(rx) && !m.Garbled?
    requires |payload| == PACKET_SIZE || |payload| == PACKET_1K_SIZE
    requires BytesOf(l, m) == Frame(number, payload, T.Trailer(payload))
    ensures var f := Frame(number, payload, T.Trailer(payload));
            var packet := f + rx.packet[|f|..];
            && |packet| == BUFFER_SIZE && packet[1] == number
            && packet[PACKET_HEADER..PACKET_HEADER + |payload|] == payload && packet[..|f|] == f
            && Arrive(l, rx, m) == R.OnPacket(Setting(l), rx.(packet := packet, errors := 0), |payload|)
  {
    hide T.Trailer, R.OnPacket, BytesOf, Scan;
    var f := Frame(number, payload, T.Trailer(payload));
    FrameRoundTrip(rx.packet, number, payload, T.Trailer(payload), []);
    assert Ticks(f) + [] == Ticks(f);
    var packet := f + rx.packet[|f|..];
    assert packet[PACKET_HEADER..PACKET_HEADER + |payload|] == f[PACKET_HEADER..PACKET_HEADER + |payload|];
  }

  lemma WrongNumberIgnored(l: Link, rx: R.Rx, number: byte, payload: seq<byte>, m: Message)
    requires R.Wf(rx) && !m.Garbled? && number != rx.received % 256
    requires |payload| == PACKET_SIZE || |payload| == PACKET_1K_SIZE
    requires BytesOf(l, m) == Frame(number, payload, T.Trailer(payload))
    ensures Ignored(rx, Arrive(l, rx, m))
  {
    FrameArrives(l, rx, number, payload, m);
    assert Arrive(l, rx, m).out[|rx.out|..] == [NAK];
    S.AcksAppend([], NAK);
    assert [] + [NAK] == [NAK];
  }

  lemma HeaderFrame(l: Link)
    requires GoodLink(l)
    ensures var payload := JobOf(l).header[PACKET_HEADER..];
            |payload| == PACKET_SIZE && BytesOf(l, Header) == Frame(0, payload, T.Trailer(payload))
  {
    var h := JobOf(l).header;
    DigitCount(|l.file|, 10);
    HeaderLayout(l.name, Digits(|l.file|), h);
    assert h[..|h|] == h;
    assert h == [SOH, 0, 0xFF] + h[PACKET_HEADER..] by { assert h == h[..PACKET_HEADER] + h[PACKET_HEADER..]; }
  }

  lemma HeaderRead(l: Link, rx: R.Rx)
    requires GoodLink(l) && R.Wf(rx) && rx.packet[..PACKET_SIZE + PACKET_HEADER] == JobOf(l).header
    ensures rx.packet[1] == 0 && rx.packet[PACKET_HEADER] != 0 && R.ReadSize(rx).size == Size(l)
  {
    DigitCount(|l.file|, 10);
    HeaderLayout(l.name, Digits(|l.file|), rx.packet);
    assert rx.packet[1] == rx.packet[..PACKET_HEADER][1];
    HeaderRoundTrip(l.name, |l.file|, rx.packet, rx.sizeText, rx.size);
  }

  lemma HeaderImage(l: Link)
    requires GoodLink(l)
    ensures Image(l, 1) == Cleared(l)
    ensures Sweeping(l).0 == Sweeping(l).1 ==> Image(l, 1) == l.flash
  {
    F.NothingSwept(l.flash, l.sectors, l.start, l.max);
    assert Padded(l.file)[..0] == [];
    assert Splice(Cleared(l), l.start, []) == Cleared(l);
  }

  lemma HeaderGranted(l: Link, rx: R.Rx)
    requires GoodLink(l) && RxAt(l, 0, rx) && rx.result.None?
    requires rx.size == Size(l) && rx.packet[1] == 0
    ensures var rx' := R.Grant(Setting(l), rx);
            RxAt(l, 1, rx') && rx'.result.None? && rx'.out == rx.out + [ACK, CRC16]
  {
    HeaderImage(l);
    var rx' := R.Grant(Setting(l), rx);
    assert rx'.chip.mem == Image(l, 1);
    assert rx'.log == LogAt(l, 1);
  }

  lemma HeaderAccepted(l: Link, rx: R.Rx)
    requires GoodLink(l) && RxAt(l, 0, rx) && rx.result.None?
    ensures var rx' := Arrive(l, rx, Header);
            RxAt(l, 1, rx') && rx'.result.None? && rx'.out == rx.out + [ACK, CRC16]
  {
    HeaderFrame(l);
    var h := JobOf(l).header;
    var f := h + T.Trailer(h[PACKET_HEADER..]);
    FrameArrives(l, rx, 0, h[PACKET_HEADER..], Header);
    var rx1 := rx.(packet := f + rx.packet[|f|..], errors := 0);
    assert rx1.packet[..|h|] == h;
    HeaderRead(l, rx1);
    HeaderGranted(l, R.ReadSize(rx1));
  }

  /** Programming the next block into what the erase left blank. */
  lemma ProgramNext(e: seq<byte>, start: nat, max: nat, p: seq<byte>, a: nat, b: nat)
    requires start + max <= |e| && e[start..start + max] == Blank(max) && a <= b <= |p| && b <= max
    ensures Splice(e, start, p[..a])[start + a..start + b] == Blank(b - a)
    ensures AfterWrite(Splice(e, start, p[..a]), start + a, p[a..b], Works) == Splice(e, start, p[..b])
  {
    var m, m' := Splice(e, start, p[..a]), Splice(e, start, p[..b]);
    forall i | start + a <= i < start + b ensures m[i] == BLANK {
      assert m[i] == e[i] == e[start..start + max][i - start];
    }
    assert m[start + a..start + b] == Blank(b - a);
    assert m[start + a..start + a + |p[a..b]|] == Blank(|p[a..b]|);
    assert Splice(m, start + a, p[a..b]) == m';
  }

  lemma NextStart(l: Link, k: nat)
    requires GoodLink(l) && 1 <= k <= Total(l)
    ensures |BlockAt(l, k)| == PACKET_SIZE || |BlockAt(l, k)| == PACKET_1K_SIZE
    ensures Start(|l.file|, k + 1) == Start(|l.file|, k) + |BlockAt(l, k)| <= |Padded(l.file)| <= l.max
    ensures BlockAt(l, k) == Padded(l.file)[Start(|l.file|, k)..Start(|l.file|, k + 1)]
  {
    StartFits(l, k);
    StartFits(l, k + 1);
    StartAt(|l.file|, k);
    StartAligned(|l.file|, k);
    PayloadIsSlice(l.file, Start(|l.file|, k));
  }

  lemma NextImage(l: Link, k: nat)
    requires GoodLink(l) && 1 <= k <= Total(l)
    ensures l.start + Start(|l.file|, k) + |BlockAt(l, k)| <= |l.flash|
    ensures var at := l.start + Start(|l.file|, k);
            Image(l, k)[at..at + |BlockAt(l, k)|] == Blank(|BlockAt(l, k)|)
    ensures AfterWrite(Image(l, k), l.start + Start(|l.file|, k), BlockAt(l, k), Works) == Image(l, k + 1)
  {
    hide Cleared, AfterWrite, BlockAt, Start, Padded, Splice, Sweeping, BlockCount;
    NextStart(l, k);
    ClearedIs(l);
    ProgramNext(Cleared(l), l.start, l.max, Padded(l.file), Start(|l.file|, k), Start(|l.file|, k + 1));
  }

  /** What storing a block does when the write works, with no mention of where the block comes from. */
  lemma StoreWorks(l: Link, rx: R.Rx, payload: seq<byte>, mem: seq<byte>)
    requires R.Wf(rx) && rx.received > 0 && rx.chip.powered && rx.dest + |payload| <= |rx.chip.mem|
    requires PACKET_HEADER + |payload| <= BUFFER_SIZE && rx.packet[PACKET_HEADER..PACKET_HEADER + |payload|] == payload
    requires rx.chip.mem[rx.dest..rx.dest + |payload|] == Blank(|payload|)
    requires AfterWrite(rx.chip.mem, rx.dest, payload, Works) == mem
    ensures R.StoreData(Setting(l), rx, |payload|) == Kept(rx, payload, mem)
  {
    hide AfterWrite, AfterHalt, LosesBits;
    BlankLosesNothing(payload);
  }

  /** The receiver after a block has been stored. */
  function Kept(rx: R.Rx, payload: seq<byte>, mem: seq<byte>): R.Rx
    requires R.Wf(rx)
  {
    rx.(received := rx.received + 1, begun := true, dest := rx.dest + |payload|, out := rx.out + [ACK],
        chip := R.Chip(mem, rx.chip.calls + 1, true), log := rx.log + [R.Stored(rx.packet[1], rx.dest, payload)])
  }

  lemma KeptAdvances(l: Link, k: nat, rx: R.Rx)
    requires GoodLink(l) && 1 <= k <= Total(l) && RxAt(l, k, rx) && rx.packet[1] == k % 256
    ensures RxAt(l, k + 1, Kept(rx, BlockAt(l, k), Image(l, k + 1)))
  {
    NextStart(l, k);
  }

  lemma BlockKept(l: Link, k: nat, rx: R.Rx, payload: seq<byte>)
    requires GoodLink(l) && 1 <= k <= Total(l) && RxAt(l, k, rx) && payload == BlockAt(l, k)
    requires rx.packet[1] == k % 256 && PACKET_HEADER + |payload| <= BUFFER_SIZE
    requires rx.packet[PACKET_HEADER..PACKET_HEADER + |payload|] == payload
    ensures R.OnPacket(Setting(l), rx, |payload|) == Kept(rx, payload, Image(l, k + 1))
  {
    hide Image, BlockAt, LogAt, AfterWrite, R.StoreData, R.ChipWrite, Total, GoodName;
    NextImage(l, k);
    StoreWorks(l, rx, payload, Image(l, k + 1));
  }

  lemma BlockAccepted(l: Link, k: nat, rx: R.Rx)
    requires GoodLink(l) && 1 <= k <= Total(l) && RxAt(l, k, rx) && rx.result.None?
    ensures var rx' := Arrive(l, rx, Block(k));
            RxAt(l, k + 1, rx') && rx'.result.None? && rx'.out == rx.out + [ACK]
  {
    NextStart(l, k);
    var payload := BlockAt(l, k);
    FrameArrives(l, rx, k % 256, payload, Block(k));
    var f := Frame(k % 256, payload, T.Trailer(payload));
    var rx1 := rx.(packet := f + rx.packet[|f|..], errors := 0);
    assert RxAt(l, k, rx1);
    BlockKept(l, k, rx1, payload);
    KeptAdvances(l, k, rx1);
  }
}
