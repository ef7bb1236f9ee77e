/** Inputs that make the receiver write past its grant, or erase what it has stored. */
module Overrun {
  import opened Bytes
  import opened FlashMemory
  import opened Numerals
  import opened Packet
  import opened Block0
  import opened Blocks
  import opened Receiver
  import opened ReceiverFlash
  import P = Partitions

  /** The receiver never looks at a trailer. */
  const TRAILER: seq<byte> := [0, 0]

  /** A receiver in the middle of a session on a device that works. */
  ghost predicate Working(cfg: Config, rx: Rx) {
    Wf(rx) && rx.result.None? && cfg.script == [] && rx.chip.powered
  }

  lemma Takes(cfg: Config, rx: Rx, number: byte, payload: seq<byte>, rest: seq<Tick>)
    requires Wf(rx) && rx.result.None? && (|payload| == PACKET_SIZE || |payload| == PACKET_1K_SIZE)
    ensures var f := Frame(number, payload, TRAILER);
            var rx1 := rx.(packet := f + rx.packet[|f|..], errors := 0);
            && Wf(rx1) && rx1.packet[1] == number && rx1.packet[PACKET_HEADER..PACKET_HEADER + |payload|] == payload
            && rx1.packet[..|f|] == f
            && Wf(OnPacket(cfg, rx1, |payload|))
            && Run(cfg, rx, Ticks(f) + rest) == Run(cfg, OnPacket(cfg, rx1, |payload|), rest)
  {
    hide Scan, Ticks, OnPacket, Frame;
    FrameRoundTrip(rx.packet, number, payload, TRAILER, rest);
    var f := Frame(number, payload, TRAILER);
    var packet := f + rx.packet[|f|..];
    assert packet[..|f|] == f;
    SliceOfSlice(packet, |f|, PACKET_HEADER, PACKET_HEADER + |payload|);
    assert packet[1] == packet[..|f|][1];
    LongInput(f, rest);
    RunUnfolds(cfg, rx, Ticks(f) + rest);
    HandleWf(cfg, rx.(packet := packet), Received(|payload|));
    assert Handle(cfg, rx.(packet := packet), Received(|payload|)) ==
           OnPacket(cfg, rx.(packet := packet, errors := 0), |payload|);
  }

  lemma LongInput(f: seq<byte>, rest: seq<Tick>)
    requires f != []
    ensures Ticks(f) + rest != []
  { }

  /** What a running receiver keeps of its state when it takes a packet. */
  ghost predicate Moved(cfg: Config, rx: Rx, rx': Rx, e: Event, bytes: nat) {
    && Working(cfg, rx') && |rx'.chip.mem| == |rx.chip.mem| && rx'.log == rx.log + [e] && rx'.dest == rx.dest + bytes
    && rx'.begun
  }

  /** The device takes the block: it lies within the device, and on a driver that reads back it loses
      no bits. */
  ghost predicate Storable(cfg: Config, rx: Rx, payload: seq<byte>) {
    && rx.dest + |payload| <= |rx.chip.mem|
    && !(cfg.readsBack && LosesBits(rx.chip.mem[rx.dest..rx.dest + |payload|], payload))
  }

  lemma Written(cfg: Config, c: Chip, at: nat, data: seq<byte>)
    requires cfg.script == [] && c.powered
    ensures var (ok, c') := ChipWrite(cfg, c, at, data);
            && |c'.mem| == |c.mem| && c'.powered && (forall i :: at + |data| <= i < |c.mem| ==> c'.mem[i] == c.mem[i])
            && (ok <==> at + |data| <= |c.mem| && !(cfg.readsBack && LosesBits(c.mem[at..at + |data|], data)))
  {
    hide WriteResult, Halted, LosesBits;
  }

  /** The block the receiver waits for is stored, and the session goes on, if and only if the device
      takes it; otherwise the session ends with -2 and nothing is acknowledged. */
  lemma BlockStoredIff(cfg: Config, rx: Rx, payload: seq<byte>, rest: seq<Tick>) returns (rx': Rx)
    requires Working(cfg, rx) && rx.received > 0
    requires |payload| == PACKET_SIZE || |payload| == PACKET_1K_SIZE
    ensures Wf(rx')
    ensures Run(cfg, rx, Ticks(Frame(rx.received % 256, payload, TRAILER)) + rest) == Run(cfg, rx', rest)
    ensures Moved(cfg, rx, rx', Stored(rx.received % 256, rx.dest, payload), |payload|) <==> Storable(cfg, rx, payload)
    ensures Storable(cfg, rx, payload) ==> rx'.received == rx.received + 1
    ensures !Storable(cfg, rx, payload) ==> rx'.log == rx.log && rx'.out == rx.out + [CA, CA] && rx'.result == Some(-2)
    ensures |rx'.chip.mem| == |rx.chip.mem|
    ensures forall i :: rx.dest + |payload| <= i < |rx.chip.mem| ==> rx'.chip.mem[i] == rx.chip.mem[i]
  {
    var number := rx.received % 256;
    hide Frame, Run, ChipWrite, LosesBits, Ticks;
    Takes(cfg, rx, number, payload, rest);
    var f := Frame(number, payload, TRAILER);
    Written(cfg, rx.chip, rx.dest, payload);
    rx' := OnPacket(cfg, rx.(packet := f + rx.packet[|f|..], errors := 0), |payload|);
  }

  /** On a driver that reads back, what is to be written must be blank. */
  ghost predicate Free(cfg: Config, m: seq<byte>, at: nat, n: nat) {
    at + n <= |m| && (cfg.readsBack ==> forall i :: at <= i < at + n ==> m[i] == BLANK)
  }

  lemma FreeIsStorable(cfg: Config, rx: Rx, payload: seq<byte>, n: nat)
    requires Free(cfg, rx.chip.mem, rx.dest, n) && |payload| <= n
    ensures Storable(cfg, rx, payload)
  {
    hide LosesBits;
    BlankLosesNothing(payload);
    if cfg.readsBack { assert rx.chip.mem[rx.dest..rx.dest + |payload|] == Blank(|payload|); }
  }

  lemma TakesBlock(cfg: Config, rx: Rx, payload: seq<byte>, n: nat, rest: seq<Tick>) returns (rx': Rx)
    requires Working(cfg, rx) && rx.received > 0 && Free(cfg, rx.chip.mem, rx.dest, |payload| + n)
    requires |payload| == PACKET_SIZE || |payload| == PACKET_1K_SIZE
    ensures Moved(cfg, rx, rx', Stored(rx.received % 256, rx.dest, payload), |payload|)
    ensures rx'.received == rx.received + 1 && Free(cfg, rx'.chip.mem, rx'.dest, n)
    ensures Run(cfg, rx, Ticks(Frame(rx.received % 256, payload, TRAILER)) + rest) == Run(cfg, rx', rest)
  {
    hide Run, Ticks, Frame, Storable;
    FreeIsStorable(cfg, rx, payload, |payload| + n);
    rx' := BlockStoredIff(cfg, rx, payload, rest);
  }

  function HeaderPacket(name: seq<byte>, n: nat): seq<byte> { HeaderBytes(name, Digits(n)) + TRAILER }

  lemma HeaderIsFrame(name: seq<byte>, n: nat)
    requires GoodName(name, n)
    ensures var payload := HeaderBytes(name, Digits(n))[PACKET_HEADER..];
            |payload| == PACKET_SIZE && HeaderPacket(name, n) == Frame(0, payload, TRAILER)
  {
    DigitCount(n, 10);
    var h := HeaderBytes(name, Digits(n));
    HeaderCells(name, Digits(n));
    assert h == h[..PACKET_HEADER] + h[PACKET_HEADER..];
  }

  /** A size the receiver lets through: one byte too many, or one that is negative in its variable. */
  predicate LetThrough(n: nat, max: nat) { n <= max + 1 || n >= 0x8000_0000 }

  lemma TakesHeader(cfg: Config, rx: Rx, name: seq<byte>, n: nat, rest: seq<Tick>) returns (rx': Rx)
    requires Working(cfg, rx) && rx.received == 0 && GoodName(name, n) && LetThrough(n, cfg.max)
    ensures Moved(cfg, rx, rx', Opened(0, rx.dest), 0) && rx'.received == 1
    ensures rx'.chip.mem == Opening(cfg, rx.chip.mem, rx.dest)
    ensures Run(cfg, rx, Ticks(HeaderPacket(name, n)) + rest) == Run(cfg, rx', rest)
  {
    hide Frame, Run, Ticks, HeaderBytes, HeaderPacket, Digits, Opening, OpenFile;
    HeaderIsFrame(name, n);
    var h := HeaderBytes(name, Digits(n));
    var payload := h[PACKET_HEADER..];
    var f := Frame(0, payload, TRAILER);
    Takes(cfg, rx, 0, payload, rest);
    var rx1 := rx.(packet := f + rx.packet[|f|..], errors := 0);
    FrontIs(name, n, rx1.packet);
    HeaderRoundTrip(name, n, rx1.packet, rx1.sizeText, rx1.size);
    Granted(cfg, rx1, n);
    rx' := OnPacket(cfg, rx1, |payload|);
  }

  lemma Granted(cfg: Config, rx: Rx, n: nat)
    requires Working(cfg, rx) && rx.received == 0 && LetThrough(n, cfg.max) && n < TWO32
    requires ParsedSize(rx.packet, rx.sizeText, rx.size) == Signed(n)
    ensures var rx' := OpenFile(cfg, rx);
            && Moved(cfg, rx, rx', Opened(rx.packet[1], rx.dest), 0) && rx'.received == 1
            && rx'.chip.mem == Opening(cfg, rx.chip.mem, rx.dest)
  {
    hide ParsedSize, CutText, NameLength, AfterSweep;
    if rx.dest + cfg.max <= |rx.chip.mem| { NothingSwept(rx.chip.mem, cfg.sectors, rx.dest, cfg.max); }
  }

  lemma FrontIs(name: seq<byte>, n: nat, packet: seq<byte>)
    requires |packet| == BUFFER_SIZE && packet[..|HeaderPacket(name, n)|] == HeaderPacket(name, n)
    ensures packet[..PACKET_SIZE + PACKET_HEADER] == HeaderBytes(name, Digits(n))
  {
    var h := HeaderBytes(name, Digits(n));
    SliceOfSlice(packet, |HeaderPacket(name, n)|, 0, |h|);
    assert HeaderPacket(name, n)[0..|h|] == h;
  }

  lemma TakesEot(cfg: Config, rx: Rx, rest: seq<Tick>) returns (rx': Rx)
    requires Working(cfg, rx)
    ensures rx' == rx.(errors := 0, out := rx.out + [ACK], received := 0, log := rx.log + [Closed])
    ensures Wf(rx') && Run(cfg, rx, Ticks([EOT]) + rest) == Run(cfg, rx', rest)
  {
    assert Tail(Ticks([EOT]) + rest) == rest;
    RunUnfolds(cfg, rx, Ticks([EOT]) + rest);
    rx' := rx.(errors := 0, out := rx.out + [ACK], received := 0, log := rx.log + [Closed]);
  }

  // ---- any number of blocks ----

  function Frames(ps: seq<seq<byte>>, r: nat): seq<byte>
    requires forall p :: p in ps ==> |p| == PACKET_SIZE || |p| == PACKET_1K_SIZE
  {
    if ps == [] then [] else Frame(r % 256, ps[0], TRAILER) + Frames(ps[1..], r + 1)
  }

  function Writes(ps: seq<seq<byte>>, r: nat, at: nat): seq<Event> {
    if ps == [] then [] else [Stored(r % 256, at, ps[0])] + Writes(ps[1..], r + 1, at + |ps[0]|)
  }

  lemma {:induction false} TakesBlocks(cfg: Config, rx: Rx, ps: seq<seq<byte>>, rest: seq<Tick>) returns (rx': Rx)
    requires Working(cfg, rx) && rx.received > 0 && rx.begun && Free(cfg, rx.chip.mem, rx.dest, |Flatten(ps)|)
    requires forall p :: p in ps ==> |p| == PACKET_SIZE || |p| == PACKET_1K_SIZE
    ensures Working(cfg, rx') && |rx'.chip.mem| == |rx.chip.mem| && rx'.begun && rx'.received == rx.received + |ps|
    ensures rx'.log == rx.log + Writes(ps, rx.received, rx.dest) && rx'.dest == rx.dest + |Flatten(ps)|
    ensures Run(cfg, rx, Ticks(Frames(ps, rx.received)) + rest) == Run(cfg, rx', rest)
    decreases |ps|
  {
    hide Frame, Run, Ticks, Working, Free;
    if ps == [] {
      NoTicksAtAll(rest);
      rx' := rx;
    } else {
      assert |ps[0]| == PACKET_SIZE || |ps[0]| == PACKET_1K_SIZE;
      var f, more := Frame(rx.received % 256, ps[0], TRAILER), Frames(ps[1..], rx.received + 1);
      TicksSplit(f, more, rest);
      var rx1 := TakesBlock(cfg, rx, ps[0], |Flatten(ps[1..])|, Ticks(more) + rest);
      rx' := TakesBlocks(cfg, rx1, ps[1..], rest);
    }
  }

  lemma NoTicksAtAll(rest: seq<Tick>)
    ensures Ticks([]) + rest == rest
  { }

  lemma TicksSplit(a: seq<byte>, b: seq<byte>, rest: seq<Tick>)
    ensures Ticks(a + b) + rest == Ticks(a) + (Ticks(b) + rest)
  { }

  /** Once the line is silent nothing more is acknowledged or stored. */
  lemma {:induction false} NothingOnSilence(cfg: Config, rx: Rx)
    requires Wf(rx)
    ensures var end := Run(cfg, rx, []); end.log == rx.log && end.chip == rx.chip
    decreases Patience(rx)
  {
    if rx.result.None? && rx.begun {
      RunUnfolds(cfg, rx, []);
      var rx' := Handle(cfg, rx, Failed);
      assert rx.(packet := rx.packet) == rx;
      NothingOnSilence(cfg, rx');
    }
  }

  /** Whatever size the header announces, as long as it is let through, every block that follows is
      stored where the one before it ended: neither the size nor the grant ends the file, only the
      device, or a driver that reads back over cells that are not blank. */
  lemma StoresWhateverComes(cfg: Config, rx: Rx, name: seq<byte>, n: nat, ps: seq<seq<byte>>)
    requires Working(cfg, rx) && rx.received == 0 && rx.log == []
    requires GoodName(name, n) && LetThrough(n, cfg.max)
    requires Free(cfg, Opening(cfg, rx.chip.mem, rx.dest), rx.dest, |Flatten(ps)|)
    requires forall p :: p in ps ==> |p| == PACKET_SIZE || |p| == PACKET_1K_SIZE
    ensures Run(cfg, rx, Ticks(HeaderPacket(name, n) + Frames(ps, 1))).log ==
              [Opened(0, rx.dest)] + Writes(ps, 1, rx.dest)
  {
    hide Run, Ticks, HeaderPacket, Frames, Writes, Flatten, GoodName;
    var header, more := HeaderPacket(name, n), Frames(ps, 1);
    TicksSplit(header, more, []);
    NoMore(Ticks(header + more));
    var rx1 := TakesHeader(cfg, rx, name, n, Ticks(more) + []);
    var rx2 := TakesBlocks(cfg, rx1, ps, []);
    NothingOnSilence(cfg, rx2);
  }

  lemma NoMore(input: seq<Tick>)
    ensures input + [] == input
  { }

  lemma TurnsAway(cfg: Config, rx: Rx, name: seq<byte>, n: nat)
    requires Working(cfg, rx) && rx.received == 0 && GoodName(name, n) && !LetThrough(n, cfg.max)
    ensures var end := Run(cfg, rx, Ticks(HeaderPacket(name, n)));
            end.log == rx.log && end.chip == rx.chip && end.result == Some(-1) && end.out == rx.out + [CA, CA]
  {
    hide Frame, Ticks, HeaderBytes, HeaderPacket, Digits, Scan;
    HeaderIsFrame(name, n);
    var payload := HeaderBytes(name, Digits(n))[PACKET_HEADER..];
    var f := Frame(0, payload, TRAILER);
    NoMore(Ticks(f));
    Takes(cfg, rx, 0, payload, []);
    var rx1 := rx.(packet := f + rx.packet[|f|..], errors := 0);
    FrontIs(name, n, rx1.packet);
    HeaderRoundTrip(name, n, rx1.packet, rx1.sizeText, rx1.size);
  }

  /** A header alone is taken if and only if its size is at most one byte above the grant, or 2^31
      and more; any other ends the session with -1, before anything is erased. */
  lemma HeaderOpensIff(cfg: Config, rx: Rx, name: seq<byte>, n: nat)
    requires Working(cfg, rx) && rx.received == 0 && rx.log == [] && GoodName(name, n)
    ensures var end := Run(cfg, rx, Ticks(HeaderPacket(name, n)));
            && (end.log == [Opened(0, rx.dest)] <==> n <= cfg.max + 1 || n >= 0x8000_0000)
            && (end.log == [] && end.chip == rx.chip && end.result == Some(-1) <==>
                  cfg.max + 1 < n < 0x8000_0000)
  {
    hide Run, Ticks, HeaderPacket;
    if LetThrough(n, cfg.max) {
      NoMore(Ticks(HeaderPacket(name, n)));
      var rx1 := TakesHeader(cfg, rx, name, n, []);
      NothingOnSilence(cfg, rx1);
    } else {
      TurnsAway(cfg, rx, name, n);
    }
  }

  /** A grant of 128 bytes, a header that announces 129, and two blocks: the second one is
      written right behind the grant. */
  lemma WritesBehindTheGrant(cfg: Config, rx: Rx, name: seq<byte>, p: seq<byte>, q: seq<byte>)
    requires Working(cfg, rx) && rx.received == 0 && rx.log == [] && cfg.max == 128 && GoodName(name, 129)
    requires |p| == |q| == PACKET_SIZE && Free(cfg, Opening(cfg, rx.chip.mem, rx.dest), rx.dest, 256)
    ensures var log := Run(cfg, rx, Ticks(HeaderPacket(name, 129) + Frames([p, q], 1))).log;
            && log == [Opened(0, rx.dest), Stored(1, rx.dest, p), Stored(2, rx.dest + cfg.max, q)]
            && !WritesStay(log, rx.dest, cfg.max)
  {
    hide Run, Frames, HeaderPacket, Writes, Flatten;
    TwoBlocks(p, q, rx.dest);
    StoresWhateverComes(cfg, rx, name, 129, [p, q]);
    var log := Run(cfg, rx, Ticks(HeaderPacket(name, 129) + Frames([p, q], 1))).log;
    assert log[2] == Stored(2, rx.dest + cfg.max, q);
  }

  lemma StayOneMore(e: Event, log: seq<Event>, start: nat, max: nat)
    ensures WritesStay([e] + log, start, max) <==>
              (e.Stored? ==> e.at + |e.payload| <= start + max) && WritesStay(log, start, max)
  {
    var more := [e] + log;
    assert more[0] == e && forall k :: 0 <= k < |log| ==> more[k + 1] == log[k];
  }

  lemma {:induction false} WritesBound(ps: seq<seq<byte>>, r: nat, at: nat, start: nat, max: nat)
    requires at <= start + max
    ensures WritesStay(Writes(ps, r, at), start, max) <==> at + |Flatten(ps)| <= start + max
    decreases |ps|
  {
    if ps != [] {
      var rest := Writes(ps[1..], r + 1, at + |ps[0]|);
      StayOneMore(Stored(r % 256, at, ps[0]), rest, start, max);
      if at + |ps[0]| <= start + max { WritesBound(ps[1..], r + 1, at + |ps[0]|, start, max); }
    }
  }

  /** The writes of a session whose header is let through stay in the grant if and only if the blocks
      sent, taken together, are no longer than it. */
  lemma StayIffBlocksFit(cfg: Config, rx: Rx, name: seq<byte>, n: nat, ps: seq<seq<byte>>)
    requires Working(cfg, rx) && rx.received == 0 && rx.log == []
    requires GoodName(name, n) && LetThrough(n, cfg.max)
    requires Free(cfg, Opening(cfg, rx.chip.mem, rx.dest), rx.dest, |Flatten(ps)|)
    requires forall p :: p in ps ==> |p| == PACKET_SIZE || |p| == PACKET_1K_SIZE
    ensures WritesStay(Run(cfg, rx, Ticks(HeaderPacket(name, n) + Frames(ps, 1))).log, rx.dest, cfg.max) <==>
              |Flatten(ps)| <= cfg.max
  {
    hide Run, Frames, HeaderPacket, Ticks, Writes, Flatten, WritesStay;
    StoresWhateverComes(cfg, rx, name, n, ps);
    StayOneMore(Opened(0, rx.dest), Writes(ps, 1, rx.dest), rx.dest, cfg.max);
    WritesBound(ps, 1, rx.dest, rx.dest, cfg.max);
  }

  /** A size of 3000000000 is negative where it is compared, so that it is let through whatever the
      grant. */
  lemma HugeSizeTaken(cfg: Config, rx: Rx, name: seq<byte>, p: seq<byte>)
    requires Working(cfg, rx) && rx.received == 0 && rx.log == [] && name != [] && 0 !in name && |name| <= 100
    requires |p| == PACKET_SIZE && Free(cfg, Opening(cfg, rx.chip.mem, rx.dest), rx.dest, |p|)
    ensures Run(cfg, rx, Ticks(HeaderPacket(name, 3000000000) + Frames([p], 1))).log ==
              [Opened(0, rx.dest), Stored(1, rx.dest, p)]
  {
    hide Run, Frames, HeaderPacket, Writes, Flatten, Digits;
    DigitCount(3000000000, 10);
    OneBlock(p, 1, rx.dest);
    StoresWhateverComes(cfg, rx, name, 3000000000, [p]);
  }

  lemma OneBlock(p: seq<byte>, r: nat, at: nat)
    ensures Flatten([p]) == p && Writes([p], r, at) == [Stored(r % 256, at, p)]
  {
    assert [p][1..] == [];
    assert Flatten([p]) == p + Flatten([]);
    assert Writes([p], r, at) == [Stored(r % 256, at, p)] + Writes([], r + 1, at + |p|);
  }

  lemma TwoBlocks(p: seq<byte>, q: seq<byte>, at: nat)
    ensures Flatten([p, q]) == p + q
    ensures Writes([p, q], 1, at) == [Stored(1, at, p), Stored(2, at + |p|, q)]
  {
    assert [p, q][1..] == [q];
    OneBlock(q, 2, at + |p|);
    assert Flatten([p, q]) == p + Flatten([q]);
    assert Writes([p, q], 1, at) == [Stored(1, at, p)] + Writes([q], 2, at + |p|);
  }

  // ---- the two devices ----

  lemma DeviceAscends(device: Device, max: nat)
    ensures Ascending(P.Sectors(device), max)
  {
    forall at: nat, at': nat | at <= at' ensures P.Sectors(device)(at, max).0 <= P.Sectors(device)(at', max).0 {
      P.SectorsAscend(device, at, at', max);
    }
  }

  /** On either device a session keeps everything below the sector its start address lies in,
      however the device behaves and whatever the line brings. */
  lemma SectorsBelowKept(cfg: Config, rx: Rx, input: seq<Tick>, device: Device)
    requires Wf(rx) && cfg.sectors == P.Sectors(device)
    ensures var m, m' := rx.chip.mem, Run(cfg, rx, input).chip.mem;
            |m'| == |m| && forall i :: 0 <= i < P.Sector(device, rx.dest).0 && i < |m| ==> m'[i] == m[i]
  {
    hide Run, Ascending, P.Sector;
    DeviceAscends(device, cfg.max);
    NothingBelow(cfg, rx, input, rx.dest);
    assert cfg.sectors(rx.dest, cfg.max) == P.Touched(device, rx.dest, cfg.max);
    FirstSector(device);
  }

  lemma FirstSector(device: Device)
    ensures P.Sector(device, 0).0 == 0
  { }

  // ---- two files in one session ----

  function OneFile(name: seq<byte>, n: nat, p: seq<byte>): seq<byte>
    requires |p| == PACKET_SIZE
  {
    HeaderPacket(name, n) + (Frames([p], 1) + [EOT])
  }

  lemma TakesFile(cfg: Config, rx: Rx, name: seq<byte>, n: nat, p: seq<byte>, rest: seq<Tick>) returns (rx': Rx)
    requires Working(cfg, rx) && rx.received == 0 && GoodName(name, n) && LetThrough(n, cfg.max)
    requires |p| == PACKET_SIZE && Free(cfg, Opening(cfg, rx.chip.mem, rx.dest), rx.dest, |p|)
    ensures Working(cfg, rx') && |rx'.chip.mem| == |rx.chip.mem| && rx'.received == 0 && rx'.dest == rx.dest + |p|
    ensures rx'.log == rx.log + [Opened(0, rx.dest)] + [Stored(1, rx.dest, p)] + [Closed]
    ensures Run(cfg, rx, Ticks(OneFile(name, n, p)) + rest) == Run(cfg, rx', rest)
  {
    hide Run, Ticks, HeaderPacket, Frames, Writes, Flatten;
    OneBlock(p, 1, rx.dest);
    TicksSplit(HeaderPacket(name, n), Frames([p], 1) + [EOT], rest);
    TicksSplit(Frames([p], 1), [EOT], rest);
    var rx1 := TakesHeader(cfg, rx, name, n, Ticks(Frames([p], 1) + [EOT]) + rest);
    var rx2 := TakesBlocks(cfg, rx1, [p], Ticks([EOT]) + rest);
    rx' := TakesEot(cfg, rx2, rest);
  }

  /** Two one-block files sent to the start of SPI flash: the address is not reset between them,
      so that the erase for the second header begins in the sector of the first file and takes it
      away. */
  lemma SecondFileWipesFirst(cfg: Config, rx: Rx, name: seq<byte>, n: nat, p: seq<byte>, q: seq<byte>)
    requires Working(cfg, rx) && rx.received == 0 && rx.log == [] && rx.dest == 0
    requires cfg.sectors == P.Sectors(SpiFlash) && !cfg.readsBack && cfg.max == 4096 && |rx.chip.mem| >= 8192
    requires GoodName(name, n) && n <= 128 && |p| == |q| == PACKET_SIZE
    ensures var end := Run(cfg, rx, Ticks(OneFile(name, n, p) + OneFile(name, n, q)));
            && Stored(1, 0, p) in end.log && Stored(1, 128, q) in end.log
            && |end.chip.mem| == |rx.chip.mem| && end.chip.mem[0..128] == Blank(128)
  {
    hide Run, Ticks, OneFile, Replay;
    NothingReplayed(cfg, rx.chip.mem);
    var first, second := OneFile(name, n, p), OneFile(name, n, q);
    TicksSplit(first, second, []);
    NoMore(Ticks(first + second));
    var rx1 := TakesFile(cfg, rx, name, n, p, Ticks(second) + []);
    var rx2 := TakesFile(cfg, rx1, name, n, q, []);
    NothingOnSilence(cfg, rx2);
    FlashIsReplay(cfg, rx, Ticks(first + second), rx.chip.mem);
    FirstWiped(cfg, rx1.log, q, rx.chip.mem);
    var log := rx2.log;
    assert log[1] == Stored(1, 0, p) && log[4] == Stored(1, 128, q);
  }

  lemma FirstWiped(cfg: Config, log: seq<Event>, q: seq<byte>, m: seq<byte>)
    requires cfg.sectors == P.Sectors(SpiFlash) && cfg.max == 4096 && |m| >= 8192 && |q| == PACKET_SIZE
    ensures Replay(cfg, log + [Opened(0, 128)] + [Stored(1, 128, q)] + [Closed], m)[0..128] == Blank(128)
  {
    hide Replay, P.Touched;
    var m0 := Replay(cfg, log, m);
    ReplayAppend(cfg, log, Opened(0, 128), m);
    ReplayAppend(cfg, log + [Opened(0, 128)], Stored(1, 128, q), m);
    ReplayAppend(cfg, log + [Opened(0, 128)] + [Stored(1, 128, q)], Closed, m);
    assert cfg.sectors(128, 4096) == P.Touched(SpiFlash, 128, 4096);
    BothSectors();
    OpeningCells(cfg, m0, 128);
    WriteCells(Opening(cfg, m0, 128), 128, q);
  }

  lemma NothingReplayed(cfg: Config, m: seq<byte>)
    ensures Replay(cfg, [], m) == m
  { }

  lemma BothSectors()
    ensures P.Touched(SpiFlash, 128, 4096) == (0, 8192)
  { }
}
