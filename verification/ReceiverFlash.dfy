/** What the receiver leaves in flash, on every input stream: erases reach whole sectors, and
    nothing holds the writes within the grant. */
module ReceiverFlash {
  import opened Bytes
  import opened FlashMemory
  import opened Numerals
  import opened Packet
  import opened Block0
  import opened Receiver
  import opened ReceiverSafety

  /** A device that works, after the erase for a header and after the write of a block. */
  function Opening(cfg: Config, m: seq<byte>, at: nat): (r: seq<byte>)
    ensures |r| == |m|
  {
    if at + cfg.max > |m| then m else AfterSweep(m, cfg.sectors, at, cfg.max, Works, false)
  }

  function Storing(m: seq<byte>, at: nat, payload: seq<byte>): (r: seq<byte>)
    ensures |r| == |m|
  {
    if at + |payload| > |m| then m else AfterWrite(m, at, payload, Works)
  }

  function Apply(cfg: Config, e: Event, m: seq<byte>): (r: seq<byte>)
    ensures |r| == |m|
  {
    if e.Opened? then Opening(cfg, m, e.at) else if e.Stored? then Storing(m, e.at, e.payload) else m
  }

  /** The device after the erases and writes of a log, one after the other. */
  function Replay(cfg: Config, log: seq<Event>, m: seq<byte>): (r: seq<byte>)
    ensures |r| == |m|
  {
    if log == [] then m else Apply(cfg, log[|log| - 1], Replay(cfg, log[..|log| - 1], m))
  }

  lemma ReplayAppend(cfg: Config, log: seq<Event>, e: Event, m: seq<byte>)
    ensures Replay(cfg, log + [e], m) == Apply(cfg, e, Replay(cfg, log, m))
  {
    assert (log + [e])[..|log|] == log && (log + [e])[|log|] == e;
  }

  lemma NothingSwept(m: seq<byte>, sectors: Sweep, at: nat, len: nat)
    requires at + len <= |m|
    ensures var (from, to) := Reach(sectors, at, len, |m|);
            from == to ==> AfterSweep(m, sectors, at, len, Works, false) == m
  {
    var (from, to) := Reach(sectors, at, len, |m|);
    if from == to { assert AfterSweep(m, sectors, at, len, Works, false) == m; }
  }

  /** The device works and holds what the log says - but for the write a driver that reads back has
      refused, and which has ended the session. */
  ghost predicate Replayed(cfg: Config, rx: Rx, m: seq<byte>) {
    rx.chip.powered && (rx.chip.mem == Replay(cfg, rx.log, m) || (cfg.readsBack && rx.result == Some(-2)))
  }

  lemma OpenReplayed(cfg: Config, rx: Rx, m: seq<byte>)
    requires Wf(rx) && rx.result.None? && cfg.script == [] && Replayed(cfg, rx, m)
    ensures Replayed(cfg, OpenFile(cfg, rx), m)
  {
    hide ParsedSize, CutText, AfterSweep, Replay;
    ReplayAppend(cfg, rx.log, Opened(rx.packet[1], rx.dest), m);
    if rx.dest + cfg.max <= |rx.chip.mem| { NothingSwept(rx.chip.mem, cfg.sectors, rx.dest, cfg.max); }
  }

  lemma StoreReplayed(cfg: Config, rx: Rx, length: nat, m: seq<byte>)
    requires Wf(rx) && rx.result.None? && cfg.script == [] && Replayed(cfg, rx, m)
    requires PACKET_HEADER + length <= BUFFER_SIZE
    ensures Replayed(cfg, StoreData(cfg, rx, length), m)
  {
    hide AfterWrite, AfterHalt, LosesBits, Replay;
    ReplayAppend(cfg, rx.log, Stored(rx.packet[1], rx.dest, rx.packet[PACKET_HEADER..PACKET_HEADER + length]), m);
  }

  lemma TurnReplayed(cfg: Config, rx: Rx, reply: Reply, m: seq<byte>)
    requires Wf(rx) && (reply.Received? ==> PACKET_HEADER + reply.length <= BUFFER_SIZE)
    requires rx.result.None? && cfg.script == [] && Replayed(cfg, rx, m)
    ensures Replayed(cfg, Handle(cfg, rx, reply), m)
  {
    hide OpenFile, StoreData, Replay;
    ReplayAppend(cfg, rx.log, Closed, m);
    ReplayAppend(cfg, rx.log, Ended, m);
    ReplayAppend(cfg, rx.log, Cancelled, m);
    if reply.Received? {
      var rx1 := rx.(errors := 0);
      OpenReplayed(cfg, rx1, m);
      StoreReplayed(cfg, rx1, reply.length, m);
    }
  }

  /** On every stream, for any number of files and any sizes, flash that works ends up exactly as
      the erases and writes of the log leave it, unless the last write was refused. */
  lemma {:induction false} FlashIsReplay(cfg: Config, rx: Rx, input: seq<Tick>, m: seq<byte>)
    requires Wf(rx) && cfg.script == [] && Replayed(cfg, rx, m)
    ensures Replayed(cfg, Run(cfg, rx, input), m)
    decreases |input|, Patience(rx)
  {
    if !(rx.result.Some? || (input == [] && !rx.begun)) {
      var (reply, packet, rest) := Scan(rx.packet, input);
      var rx1 := rx.(packet := packet);
      HandleWf(cfg, rx1, reply);
      TurnReplayed(cfg, rx1, reply, m);
      FlashIsReplay(cfg, Handle(cfg, rx1, reply), rest, m);
    }
  }

  // ---- the first file ----

  function Headers(log: seq<Event>): nat {
    if log == [] then 0 else Headers(log[..|log| - 1]) + if log[|log| - 1].Opened? then 1 else 0
  }

  /** `s` programmed over what `m` holds from `at` on: cells can only lose bits. */
  ghost predicate ProgrammedOver(m: seq<byte>, at: nat, s: seq<byte>, r: seq<byte>) {
    && at + |s| <= |m| == |r|
    && forall i :: 0 <= i < |m| ==> r[i] == if at <= i < at + |s| then And(m[i], s[i - at]) else m[i]
  }

  lemma WriteCells(r: seq<byte>, to: nat, p: seq<byte>)
    requires to + |p| <= |r|
    ensures ProgrammedOver(r, to, p, AfterWrite(r, to, p, Works))
  {
    hide And;
    var was := r[to..to + |p|];
    assert forall i :: to <= i < to + |p| ==> r[i] == was[i - to];
  }

  lemma ProgramMore(m: seq<byte>, at: nat, s: seq<byte>, r: seq<byte>, p: seq<byte>, r': seq<byte>)
    requires ProgrammedOver(m, at, s, r) && ProgrammedOver(r, at + |s|, p, r')
    ensures ProgrammedOver(m, at, s + p, r')
  {
    hide And;
  }

  lemma NoHeaderNoBytes(log: seq<Event>, start: nat)
    requires InOrder(log, start) && Headers(log) == 0
    ensures Position(log) == 0 && StoredBytes(log) == []
  {
    if log != [] { NoHeaderNoBytes(log[..|log| - 1], start); }
  }

  lemma NoHeaderNoChange(cfg: Config, log: seq<Event>, start: nat, m: seq<byte>)
    requires InOrder(log, start) && Headers(log) == 0
    ensures Replay(cfg, log, m) == m
  {
    if log != [] {
      NoHeaderNoChange(cfg, log[..|log| - 1], start, m);
      NoHeaderNoBytes(log[..|log| - 1], start);
    }
  }

  /** With one header in the log, flash is the swept device with all the stored bytes, in order,
      programmed over it from the start address on - within the grant or beyond. */
  lemma {:induction false} OneFileExactly(cfg: Config, log: seq<Event>, start: nat, m: seq<byte>)
    requires InOrder(log, start) && Headers(log) == 1 && start + |StoredBytes(log)| <= |m|
    ensures ProgrammedOver(Opening(cfg, m, start), start, StoredBytes(log), Replay(cfg, log, m))
    decreases |log|
  {
    hide ProgrammedOver, Opening, AfterWrite;
    var front, e := log[..|log| - 1], log[|log| - 1];
    var base := Opening(cfg, m, start);
    if e.Opened? {
      NoHeaderNoBytes(front, start);
      NoHeaderNoChange(cfg, front, start, m);
      NothingProgrammed(base, start);
    } else {
      OneFileExactly(cfg, front, start, m);
      var r := Replay(cfg, front, m);
      if e.Stored? {
        WriteCells(r, e.at, e.payload);
        ProgramMore(base, start, StoredBytes(front), r, e.payload, AfterWrite(r, e.at, e.payload, Works));
        assert Replay(cfg, log, m) == AfterWrite(r, e.at, e.payload, Works);
      } else {
        assert StoredBytes(log) == StoredBytes(front) && Replay(cfg, log, m) == r;
      }
    }
  }

  lemma NothingProgrammed(m: seq<byte>, at: nat)
    requires at <= |m|
    ensures ProgrammedOver(m, at, [], m)
  { }

  lemma OpeningCells(cfg: Config, m: seq<byte>, at: nat)
    requires at + cfg.max <= |m|
    ensures var (from, to) := Reach(cfg.sectors, at, cfg.max, |m|);
            forall i :: 0 <= i < |m| ==> Opening(cfg, m, at)[i] == if from <= i < to then BLANK else m[i]
  { }

  /** What a session with one header leaves: the sectors of the grant are blank but for the
      stored bytes, in order, from the start address on, and nothing else is changed - as long as
      the stored bytes fit the grant. */
  lemma FirstFileHeld(cfg: Config, log: seq<Event>, start: nat, m: seq<byte>)
    requires InOrder(log, start) && Headers(log) == 1 && start + cfg.max <= |m| && |StoredBytes(log)| <= cfg.max
    ensures var (from, to) := Reach(cfg.sectors, start, cfg.max, |m|);
            var r, s := Replay(cfg, log, m), StoredBytes(log);
            && r[start..start + |s|] == s
            && forall i :: 0 <= i < |m| && !(start <= i < start + |s|) ==>
                 r[i] == if from <= i < to then BLANK else m[i]
  {
    hide And, Replay, Opening, Reach, InOrder, StoredBytes, Headers;
    OneFileExactly(cfg, log, start, m);
    OpeningCells(cfg, m, start);
    AndBlank();
  }

  lemma AndBlank()
    ensures forall b: byte :: And(BLANK, b) == b
  { }

  /** Beyond the sectors of the grant the stored bytes survive only where they lose no bits to
      what was there. */
  lemma OneFileHeldIff(cfg: Config, log: seq<Event>, start: nat, m: seq<byte>)
    requires InOrder(log, start) && Headers(log) == 1 && start + cfg.max <= |m| && start + |StoredBytes(log)| <= |m|
    ensures var to := Reach(cfg.sectors, start, cfg.max, |m|).1;
            var r, s := Replay(cfg, log, m), StoredBytes(log);
            r[start..start + |s|] == s <==>
              forall i :: to <= i < start + |s| ==> And(m[i], s[i - start]) == s[i - start]
  {
    hide And, Replay, Opening, Reach, InOrder, StoredBytes, Headers;
    OneFileExactly(cfg, log, start, m);
    OpeningCells(cfg, m, start);
    AndBlank();
    var r, s := Replay(cfg, log, m), StoredBytes(log);
    var part := r[start..start + |s|];
    assert forall i :: start <= i < start + |s| ==> r[i] == part[i - start];
  }

  // ---- a driver that reads back ----

  /** As long as one header has come, flash holds what has been acknowledged. */
  ghost predicate Held(rx: Rx, start: nat) {
    Headers(rx.log) <= 1 ==>
      && start + |StoredBytes(rx.log)| <= |rx.chip.mem|
      && rx.chip.mem[start..start + |StoredBytes(rx.log)|] == StoredBytes(rx.log)
  }

  lemma HeadersAppend(log: seq<Event>, e: Event)
    ensures Headers(log + [e]) == Headers(log) + if e.Opened? then 1 else 0
  {
    assert (log + [e])[..|log|] == log && (log + [e])[|log|] == e;
  }

  lemma OpenHeld(cfg: Config, rx: Rx, start: nat)
    requires Safe(rx, start) && rx.result.None? && start <= |rx.chip.mem| && Held(rx, start)
    ensures Held(OpenFile(cfg, rx), start)
  {
    hide ParsedSize, CutText, AfterSweep, Headers, StoredBytes;
    var e := Opened(rx.packet[1], rx.dest);
    HeadersAppend(rx.log, e);
    LogAppend(rx.log, start, e);
    if Headers(rx.log) == 0 { NoHeaderNoBytes(rx.log, start); }
  }

  lemma SpliceBehind(m: seq<byte>, start: nat, s: seq<byte>, d: seq<byte>)
    requires start + |s| + |d| <= |m| && m[start..start + |s|] == s
    ensures var m' := Splice(m, start + |s|, d);
            m'[start..start + |s|] == s && m'[start..start + |s + d|] == s + d
  {
    var was := m[start..start + |s|];
    assert forall i :: 0 <= i < |s| ==> was[i] == m[start + i];
  }

  lemma WriteHeld(cfg: Config, c: Chip, start: nat, s: seq<byte>, data: seq<byte>)
    requires cfg.readsBack && cfg.script == [] && start + |s| <= |c.mem| && c.mem[start..start + |s|] == s
    ensures var (ok, c') := ChipWrite(cfg, c, start + |s|, data);
            && |c'.mem| == |c.mem| && c'.mem[start..start + |s|] == s
            && (ok ==> start + |s| + |data| <= |c.mem| && c'.mem[start..start + |s + data|] == s + data)
  {
    hide Splice, Halted, Programmed;
    var at := start + |s|;
    if at + |data| <= |c.mem| {
      SpliceBehind(c.mem, start, s, data);
      SpliceBehind(c.mem, start, s, Halted(c.mem[at..at + |data|], data, at).0);
    }
  }

  lemma StoreHeld(cfg: Config, rx: Rx, length: nat, start: nat)
    requires cfg.readsBack && cfg.script == [] && Safe(rx, start) && rx.result.None? && Held(rx, start)
    requires PACKET_HEADER + length <= BUFFER_SIZE
    ensures Held(StoreData(cfg, rx, length), start)
  {
    hide Headers, StoredBytes, ChipWrite, InOrder, Acks, AnyOpened;
    var payload := rx.packet[PACKET_HEADER..PACKET_HEADER + length];
    var e := Stored(rx.packet[1], rx.dest, payload);
    HeadersAppend(rx.log, e);
    LogAppend(rx.log, start, e);
    if Headers(rx.log) <= 1 { WriteHeld(cfg, rx.chip, start, StoredBytes(rx.log), payload); }
  }

  lemma TurnHeld(cfg: Config, rx: Rx, reply: Reply, start: nat)
    requires cfg.readsBack && cfg.script == [] && start <= |rx.chip.mem|
    requires Safe(rx, start) && rx.result.None? && Held(rx, start)
    requires reply.Received? ==> PACKET_HEADER + reply.length <= BUFFER_SIZE
    ensures Held(Handle(cfg, rx, reply), start) && |Handle(cfg, rx, reply).chip.mem| == |rx.chip.mem|
  {
    hide OpenFile, StoreData, Headers, StoredBytes, InOrder, Acks, AnyOpened;
    HeadersAppend(rx.log, Closed);
    HeadersAppend(rx.log, Ended);
    HeadersAppend(rx.log, Cancelled);
    LogAppend(rx.log, start, Closed);
    LogAppend(rx.log, start, Ended);
    LogAppend(rx.log, start, Cancelled);
    if reply.Received? {
      var rx1 := rx.(errors := 0);
      OpenHeld(cfg, rx1, start);
      StoreHeld(cfg, rx1, reply.length, start);
      SameSize(cfg, rx1, reply.length);
    }
  }

  lemma SameSize(cfg: Config, rx: Rx, length: nat)
    requires Wf(rx) && PACKET_HEADER + length <= BUFFER_SIZE
    ensures |OpenFile(cfg, rx).chip.mem| == |rx.chip.mem| == |StoreData(cfg, rx, length).chip.mem|
  {
    hide ParsedSize, CutText, AfterSweep, AfterWrite, AfterHalt, LosesBits;
  }

  /** On a device whose driver reads back what it programs, a session with one header leaves in
      flash exactly what it has acknowledged, wherever that lies and however the session ends. */
  lemma {:induction false} AcknowledgedIsHeld(cfg: Config, rx: Rx, input: seq<Tick>, start: nat)
    requires cfg.readsBack && cfg.script == [] && start <= |rx.chip.mem| && Safe(rx, start) && Held(rx, start)
    ensures Held(Run(cfg, rx, input), start)
    decreases |input|, Patience(rx)
  {
    hide Held, Safe;
    SafeWf(rx, start);
    if !(rx.result.Some? || (input == [] && !rx.begun)) {
      var (reply, packet, rest) := Scan(rx.packet, input);
      var rx1 := rx.(packet := packet);
      SameButPacket(rx, packet, start);
      HandleSafe(cfg, rx1, reply, start);
      HandleWf(cfg, rx1, reply);
      TurnHeld(cfg, rx1, reply, start);
      AcknowledgedIsHeld(cfg, Handle(cfg, rx1, reply), rest, start);
    }
  }

  lemma SafeWf(rx: Rx, start: nat)
    requires Safe(rx, start)
    ensures Wf(rx)
  { }

  lemma SameButPacket(rx: Rx, packet: seq<byte>, start: nat)
    requires Safe(rx, start) && |packet| == BUFFER_SIZE
    ensures Safe(rx.(packet := packet), start) && (Held(rx, start) <==> Held(rx.(packet := packet), start))
  { }

  // ---- more files ----

  lemma OpeningSparesIff(cfg: Config, m: seq<byte>, start: nat, at: nat)
    requires start <= at <= |m|
    ensures Opening(cfg, m, at)[start..at] == m[start..at] <==>
              at + cfg.max > |m|
              || forall i :: start <= i < at && Reach(cfg.sectors, at, cfg.max, |m|).0 <= i ==> m[i] == BLANK
  {
    hide Reach;
    if at + cfg.max > |m| { return; }
    OpeningCells(cfg, m, at);
    hide Opening;
    var m' := Opening(cfg, m, at);
    var part, part' := m[start..at], m'[start..at];
    assert forall k :: 0 <= k < at - start ==> part[k] == m[start + k] && part'[k] == m'[start + k];
    assert forall i :: start <= i < at ==> m[i] == part[i - start] && m'[i] == part'[i - start];
  }

  /** The erase for a later header spares what the session has stored so far if and only if it is
      refused, its range running past the device, or what was stored lies before the first sector it
      touches, or is blank from there on. */
  lemma LaterHeaderSparesIff(cfg: Config, log: seq<Event>, start: nat, m: seq<byte>)
    requires start + |StoredBytes(log)| <= |m|
    ensures var at := start + |StoredBytes(log)|;
            var before, after := Replay(cfg, log, m), Replay(cfg, log + [Opened(0, at)], m);
            after[start..at] == before[start..at] <==>
              at + cfg.max > |m|
              || forall i :: start <= i < at && Reach(cfg.sectors, at, cfg.max, |m|).0 <= i ==> before[i] == BLANK
  {
    hide Opening, Reach, StoredBytes, Replay;
    var at := start + |StoredBytes(log)|;
    ReplayAppend(cfg, log, Opened(0, at), m);
    OpeningSparesIff(cfg, Replay(cfg, log, m), start, at);
  }

  /** A grant that reaches to the end of the device: once a byte is stored, a later header erases
      nothing at all. */
  lemma GrantToTheEnd(cfg: Config, log: seq<Event>, start: nat, m: seq<byte>)
    requires start + cfg.max == |m| && StoredBytes(log) != []
    ensures Replay(cfg, log + [Opened(0, start + |StoredBytes(log)|)], m) == Replay(cfg, log, m)
  {
    hide Replay, StoredBytes;
    ReplayAppend(cfg, log, Opened(0, start + |StoredBytes(log)|), m);
  }

  // ---- the grant ----

  /** Every write of the log ends within `max` bytes of `start`. */
  ghost predicate WritesStay(log: seq<Event>, start: nat, max: nat) {
    forall k :: 0 <= k < |log| && log[k].Stored? ==> log[k].at + |log[k].payload| <= start + max
  }

  lemma {:induction false} WritesGrow(log: seq<Event>, start: nat)
    requires InOrder(log, start)
    ensures forall k :: 0 <= k < |log| && log[k].Stored? ==> log[k].at + |log[k].payload| <= start + |StoredBytes(log)|
    decreases |log|
  {
    if log != [] {
      var front := log[..|log| - 1];
      WritesGrow(front, start);
      assert forall k :: 0 <= k < |front| ==> log[k] == front[k];
    }
  }

  lemma {:induction false} LastWrite(log: seq<Event>, start: nat) returns (k: nat)
    requires InOrder(log, start) && StoredBytes(log) != []
    ensures k < |log| && log[k].Stored? && log[k].at + |log[k].payload| == start + |StoredBytes(log)|
    decreases |log|
  {
    k := |log| - 1;
    if !log[k].Stored? {
      var front := log[..k];
      k := LastWrite(front, start);
      assert log[k] == front[k];
    }
  }

  /** The writes of a session with one header stay in its grant if and only if it stores no more
      bytes than granted: the receiver itself never checks. */
  lemma WritesStayIff(log: seq<Event>, start: nat, max: nat)
    requires InOrder(log, start)
    ensures WritesStay(log, start, max) <==> |StoredBytes(log)| <= max
  {
    WritesGrow(log, start);
    if |StoredBytes(log)| > max { var k := LastWrite(log, start); }
  }

  // ---- below the start address ----

  /** A higher range never touches a lower sector than a lower one does. */
  ghost predicate Ascending(sectors: Sweep, max: nat) {
    forall at: nat, at': nat :: at <= at' ==> sectors(at, max).0 <= sectors(at', max).0
  }

  function Floor(cfg: Config, start: nat): nat {
    var from := cfg.sectors(start, cfg.max).0;
    if from < start then from else start
  }

  ghost predicate BelowKept(rx: Rx, rx': Rx, floor: nat) {
    && |rx'.chip.mem| == |rx.chip.mem| && rx'.dest >= rx.dest
    && forall i :: 0 <= i < floor && i < |rx.chip.mem| ==> rx'.chip.mem[i] == rx.chip.mem[i]
  }

  lemma OpenBelow(cfg: Config, rx: Rx, start: nat)
    requires Wf(rx) && start <= rx.dest && Ascending(cfg.sectors, cfg.max)
    ensures BelowKept(rx, OpenFile(cfg, rx), Floor(cfg, start))
  {
    hide ParsedSize, CutText;
    assert cfg.sectors(start, cfg.max).0 <= cfg.sectors(rx.dest, cfg.max).0;
  }

  lemma StoreBelow(cfg: Config, rx: Rx, length: nat, start: nat)
    requires Wf(rx) && start <= rx.dest && PACKET_HEADER + length <= BUFFER_SIZE
    ensures BelowKept(rx, StoreData(cfg, rx, length), Floor(cfg, start))
  { }

  lemma TurnBelow(cfg: Config, rx: Rx, packet: seq<byte>, reply: Reply, start: nat)
    requires Wf(rx) && start <= rx.dest && |packet| == BUFFER_SIZE && Ascending(cfg.sectors, cfg.max)
    requires reply.Received? ==> PACKET_HEADER + reply.length <= BUFFER_SIZE
    ensures BelowKept(rx, Handle(cfg, rx.(packet := packet), reply), Floor(cfg, start))
  {
    hide OpenFile, StoreData, Ascending, Floor;
    if reply.Received? {
      OpenBelow(cfg, rx.(packet := packet, errors := 0), start);
      StoreBelow(cfg, rx.(packet := packet, errors := 0), reply.length, start);
    }
  }

  /** Nothing below the first sector of the start address is ever touched, however flash behaves
      and however many files come. */
  lemma {:induction false} NothingBelow(cfg: Config, rx: Rx, input: seq<Tick>, start: nat)
    requires Wf(rx) && start <= rx.dest && Ascending(cfg.sectors, cfg.max)
    ensures BelowKept(rx, Run(cfg, rx, input), Floor(cfg, start))
    decreases |input|, Patience(rx)
  {
    hide Ascending, Floor;
    if !(rx.result.Some? || (input == [] && !rx.begun)) {
      var (reply, packet, rest) := Scan(rx.packet, input);
      TurnBelow(cfg, rx, packet, reply, start);
      HandleWf(cfg, rx.(packet := packet), reply);
      NothingBelow(cfg, Handle(cfg, rx.(packet := packet), reply), rest, start);
    }
  }

  // ---- from the first call on ----

  /** The variables as `Ymodem_Receive` starts, with whatever its buffers hold. */
  function First(chip: Chip, dest: nat, packet: seq<byte>, sizeText: seq<byte>): Rx {
    Rx(0, 0, false, 0, dest, packet, sizeText, [], chip, [], None)
  }

  /** A whole session, on any bytes from the line and any flash behaviour. */
  lemma AnySession(cfg: Config, chip: Chip, dest: nat, packet: seq<byte>, sizeText: seq<byte>, input: seq<Tick>)
    requires |packet| == BUFFER_SIZE && |sizeText| == FILE_SIZE_LENGTH + 1
    ensures var end := Run(cfg, First(chip, dest, packet, sizeText), input);
            && InOrder(end.log, dest) && end.dest == dest + |StoredBytes(end.log)|
            && Acks(end.out) == |end.log| && end.errors <= MAX_ERRORS + 1
            && (AnyOpened(end.log) ==> end.result.Some?)
            && (WritesStay(end.log, dest, cfg.max) <==> |StoredBytes(end.log)| <= cfg.max)
            && (Ascending(cfg.sectors, cfg.max) ==>
                  BelowKept(First(chip, dest, packet, sizeText), end, Floor(cfg, dest)))
            && (cfg.script == [] && chip.powered ==> Replayed(cfg, end, chip.mem))
  {
    hide BelowKept, Ascending, Floor, WritesStay;
    var rx := First(chip, dest, packet, sizeText);
    RunSafe(cfg, rx, input, dest);
    WritesStayIff(Run(cfg, rx, input).log, dest, cfg.max);
    if Ascending(cfg.sectors, cfg.max) { NothingBelow(cfg, rx, input, dest); }
    if cfg.script == [] && chip.powered { FlashIsReplay(cfg, rx, input, chip.mem); }
  }
}
