/** What ends a session of the receiver, and what it answers and returns then, in the bytes on the line. */
module Verdicts {
  import opened Bytes
  import opened FlashMemory
  import opened Numerals
  import opened Packet
  import opened Block0
  import opened Receiver

  // ---- how far a packet reads ----

  lemma {:induction false} FillBroken(buf: seq<byte>, i: nat, end: nat, s: seq<byte>, rest: seq<Tick>)
    requires i + |s| < end <= |buf| && Head(rest) == Silence
    ensures Fill(buf, i, end, Ticks(s) + rest) == (false, buf[..i] + s + buf[i + |s|..], Tail(rest))
    decreases |s|
  {
    var input := Ticks(s) + rest;
    if s == [] {
      assert input == rest && buf == buf[..i] + s + buf[i..];
    } else {
      OneTick(s, rest);
      FillBroken(buf[i := s[0]], i + 1, end, s[1..], rest);
      Stored(buf, i, s);
    }
  }

  lemma OneTick(s: seq<byte>, rest: seq<Tick>)
    requires s != []
    ensures Head(Ticks(s) + rest) == Got(s[0]) && Tail(Ticks(s) + rest) == Ticks(s[1..]) + rest
  { }

  lemma Stored(buf: seq<byte>, i: nat, s: seq<byte>)
    requires s != [] && i + |s| <= |buf|
    ensures var b := buf[i := s[0]]; b[..i + 1] + s[1..] + b[i + |s|..] == buf[..i] + s + buf[i + |s|..]
  { }

  /** A packet that begins takes all the bytes it announces, or those up to the first timeout and that;
      what has come is in the buffer either way. */
  lemma PacketReads(buf: seq<byte>, s: seq<byte>, rest: seq<Tick>)
    requires |buf| == BUFFER_SIZE && s != [] && (s[0] == 0x01 || s[0] == 0x02)
    requires var len := if s[0] == 0x01 then 133 else 1029; |s| <= len && (|s| < len ==> Head(rest) == Silence)
    ensures var len := if s[0] == 0x01 then 133 else 1029;
            Scan(buf, Ticks(s) + rest) ==
              (if |s| == len && s[1] == 255 - s[2] then Received(len - 5) else Failed,
               s + buf[|s|..], if |s| == len then rest else Tail(rest))
  {
    hide Fill, Ticks;
    var len := if s[0] == 0x01 then 133 else 1029;
    OneTick(s, rest);
    Stored(buf, 0, s);
    var b := buf[0 := s[0]];
    if |s| == len { FillBytes(b, 1, s[1..], rest); } else { FillBroken(b, 1, len, s[1..], rest); }
    assert buf[..0] + s + buf[|s|..] == s + buf[|s|..];
  }

  /** Anything else takes one byte, or one timeout, and leaves the buffer alone; only a cancel takes two. */
  lemma OthersRead(buf: seq<byte>, input: seq<Tick>)
    requires |buf| == BUFFER_SIZE && !(input != [] && (input[0] == Got(0x01) || input[0] == Got(0x02)))
    ensures var (reply, b, rest) := Scan(buf, input);
            var n := if input != [] && input[0] == Got(0x18) then 2 else 1;
            !reply.Received? && b == buf && rest == if n <= |input| then input[n..] else []
  {
    hide Fill;
  }

  // ---- what the next bytes mean ----

  predicate AbortKey(input: seq<Tick>) { input != [] && (input[0] == Got(0x41) || input[0] == Got(0x61)) }

  predicate TwoCancels(input: seq<Tick>) { |input| >= 2 && input[0] == Got(0x18) && input[1] == Got(0x18) }

  predicate EndMark(input: seq<Tick>) { input != [] && input[0] == Got(0x04) }

  /** The line goes on with a packet of `n` bytes, its number and complement adding up to 255. */
  ghost predicate PacketNext(input: seq<Tick>, n: nat) {
    exists s: seq<byte> ::
      |s| == n + 5 && s[0] == (if n == 128 then 0x01 else 0x02) && s[1] == 255 - s[2] && Ticks(s) <= input
  }

  /** Which bytes draw which reply. */
  lemma ReplyIff(buf: seq<byte>, input: seq<Tick>)
    requires |buf| == BUFFER_SIZE
    ensures var reply := Scan(buf, input).0;
            && (reply == UserAbort <==> AbortKey(input))
            && (reply == SenderAbort <==> TwoCancels(input))
            && (reply == EndOfFile <==> EndMark(input))
            && (reply == Received(128) <==> PacketNext(input, 128))
            && (reply == Received(1024) <==> PacketNext(input, 1024))
            && (reply.Received? ==> reply.length == 128 || reply.length == 1024)
  {
    KeysIff(buf, input);
    PacketIff(buf, input, 128);
    PacketIff(buf, input, 1024);
  }

  lemma KeysIff(buf: seq<byte>, input: seq<Tick>)
    requires |buf| == BUFFER_SIZE
    ensures var reply := Scan(buf, input).0;
            && (reply == UserAbort <==> AbortKey(input))
            && (reply == SenderAbort <==> TwoCancels(input))
            && (reply == EndOfFile <==> EndMark(input))
  {
    hide Fill;
  }

  lemma PacketIff(buf: seq<byte>, input: seq<Tick>, n: nat)
    requires |buf| == BUFFER_SIZE && (n == 128 || n == 1024)
    ensures Scan(buf, input).0 == Received(n) <==> PacketNext(input, n)
  {
    hide Scan, Ticks;
    if Scan(buf, input).0 == Received(n) { PacketSeen(buf, input, n); }
    if PacketNext(input, n) {
      var s: seq<byte> :|
        |s| == n + 5 && s[0] == (if n == 128 then 0x01 else 0x02) && s[1] == 255 - s[2] && Ticks(s) <= input;
      Behind(input, s);
      PacketReads(buf, s, input[|s|..]);
    }
  }

  lemma Behind(input: seq<Tick>, s: seq<byte>)
    requires Ticks(s) <= input
    ensures |s| <= |input| && input == Ticks(s) + input[|s|..]
  { }

  lemma PacketSeen(buf: seq<byte>, input: seq<Tick>, n: nat)
    requires |buf| == BUFFER_SIZE && (n == 128 || n == 1024) && Scan(buf, input).0 == Received(n)
    ensures PacketNext(input, n)
  {
    hide Scan, Ticks;
    ReceivedFrom(buf, input);
    var b, rest := Scan(buf, input).1, Scan(buf, input).2;
    var s := b[..n + 5];
    assert Ticks(s) <= Ticks(s) + rest;
  }

  // ---- single turns ----

  /** A user who types 'A' or 'a' where a packet should begin ends the session: two cancels, -3. */
  lemma UserAborts(cfg: Config, rx: Rx, b: byte, rest: seq<Tick>)
    requires Wf(rx) && rx.result.None? && (b == 0x41 || b == 0x61)
    ensures Run(cfg, rx, [Got(b)] + rest) == rx.(out := rx.out + [0x18, 0x18], result := Some(-3))
  {
    var input := [Got(b)] + rest;
    KeysIff(rx.packet, input);
    hide Fill;
    RunUnfolds(cfg, rx, input);
    assert rx.(packet := rx.packet) == rx;
  }

  /** Two cancels from the sender end it too: acknowledged, 0, and nothing stored or erased. */
  lemma SenderCancels(cfg: Config, rx: Rx, rest: seq<Tick>)
    requires Wf(rx) && rx.result.None?
    ensures Run(cfg, rx, [Got(0x18), Got(0x18)] + rest) ==
              rx.(errors := 0, out := rx.out + [0x06], log := rx.log + [Cancelled], result := Some(0))
  {
    var input := [Got(0x18), Got(0x18)] + rest;
    hide Fill;
    RunUnfolds(cfg, rx, input);
    assert Tail(input)[0] == Got(0x18);
  }

  /** The end of transmission is acknowledged, and the next packet is a header again. */
  lemma FileEnds(cfg: Config, rx: Rx, rest: seq<Tick>)
    requires Wf(rx) && rx.result.None?
    ensures Run(cfg, rx, [Got(0x04)] + rest) ==
              Run(cfg, rx.(errors := 0, out := rx.out + [0x06], received := 0, log := rx.log + [Closed]), rest)
  {
    var input := [Got(0x04)] + rest;
    hide Fill;
    RunUnfolds(cfg, rx, input);
    assert Tail(input) == rest;
  }

  /** Anything that is no packet: 'C' is sent again, and counted once a file has begun. The
      twenty-first in a row ends the session with two cancels and 0. */
  lemma FailedTurn(cfg: Config, rx: Rx, input: seq<Tick>)
    requires Wf(rx) && rx.result.None? && (input != [] || rx.begun) && Scan(rx.packet, input).0.Failed?
    ensures var (_, packet, rest) := Scan(rx.packet, input);
            var errors := if rx.begun then rx.errors + 1 else rx.errors;
            Run(cfg, rx, input) ==
              if errors > 20 then
                rx.(packet := packet, errors := errors, out := rx.out + [0x18, 0x18], result := Some(0))
              else Run(cfg, rx.(packet := packet, errors := errors, out := rx.out + [0x43]), rest)
  {
    hide Scan;
    RunUnfolds(cfg, rx, input);
  }

  /** Twenty-one silent turns after the last good packet and the receiver gives up. */
  lemma {:induction false} SilenceEnds(cfg: Config, rx: Rx)
    requires Wf(rx) && rx.result.None? && rx.begun && rx.errors <= 20
    ensures var end := Run(cfg, rx, []);
            && end.result == Some(0) && end.errors == 21 && end.log == rx.log && end.chip == rx.chip
            && end.out == rx.out + Repeat(0x43, 20 - rx.errors) + [0x18, 0x18]
    decreases 20 - rx.errors
  {
    FailedTurn(cfg, rx, []);
    var rx' := rx.(errors := rx.errors + 1, out := rx.out + [0x43]);
    if rx.errors < 20 {
      SilenceEnds(cfg, rx');
      assert rx.out + [0x43] + Repeat(0x43, 19 - rx.errors) == rx.out + Repeat(0x43, 20 - rx.errors);
    } else {
      assert rx.out + Repeat(0x43, 0) == rx.out;
    }
  }

  /** A packet with a number that is not expected is answered with NAK and nothing else. */
  lemma WrongNumber(cfg: Config, rx: Rx, input: seq<Tick>)
    requires Wf(rx) && rx.result.None? && Scan(rx.packet, input).0.Received?
    requires Scan(rx.packet, input).1[1] != rx.received % 256
    ensures var (_, packet, rest) := Scan(rx.packet, input);
            Run(cfg, rx, input) == Run(cfg, rx.(packet := packet, errors := 0, out := rx.out + [0x15]), rest)
  {
    hide Scan;
    RunUnfolds(cfg, rx, input);
  }

  /** A header without a name ends the session: acknowledged, and the last size returned. */
  lemma EmptyHeaderEnds(cfg: Config, rx: Rx, input: seq<Tick>)
    requires Wf(rx) && rx.result.None? && rx.received == 0 && Scan(rx.packet, input).0.Received?
    requires var packet := Scan(rx.packet, input).1; packet[1] == 0 && packet[3] == 0
    ensures Run(cfg, rx, input) ==
              rx.(packet := Scan(rx.packet, input).1, errors := 0, out := rx.out + [0x06], log := rx.log + [Ended],
                  result := Some(rx.size))
  {
    hide Scan;
    RunUnfolds(cfg, rx, input);
  }

  // ---- which turn is the last, and what it returns ----

  function Next(cfg: Config, rx: Rx, input: seq<Tick>): (rx': Rx)
    requires Wf(rx)
  {
    var (reply, packet, rest) := Scan(rx.packet, input);
    Handle(cfg, rx.(packet := packet), reply)
  }

  /** Patience is over: no packet, and twenty failures counted before it. */
  ghost predicate TooManyErrors(rx: Rx, input: seq<Tick>)
    requires Wf(rx)
  {
    Scan(rx.packet, input).0.Failed? && (if rx.begun then rx.errors + 1 else rx.errors) > 20
  }

  /** The packet that comes has the number the receiver waits for. */
  ghost predicate Expected(rx: Rx, input: seq<Tick>)
    requires Wf(rx)
  {
    Scan(rx.packet, input).0.Received? && Scan(rx.packet, input).1[1] == rx.received % 256
  }

  ghost predicate NoName(rx: Rx, input: seq<Tick>)
    requires Wf(rx)
  {
    Expected(rx, input) && rx.received == 0 && Scan(rx.packet, input).1[3] == 0
  }

  ghost predicate TooBig(cfg: Config, rx: Rx, input: seq<Tick>)
    requires Wf(rx)
  {
    && Expected(rx, input) && rx.received == 0 && Scan(rx.packet, input).1[3] != 0
    && ParsedSize(Scan(rx.packet, input).1, rx.sizeText, rx.size) > cfg.max + 1
  }

  ghost predicate WriteFails(cfg: Config, rx: Rx, input: seq<Tick>)
    requires Wf(rx)
  {
    && Expected(rx, input) && rx.received > 0
    && var n := Scan(rx.packet, input).0.length;
       !ChipWrite(cfg, rx.chip, rx.dest, Scan(rx.packet, input).1[3..3 + n]).0
  }

  /** The six ways a session ends: exactly then the turn is the last one, and this is what it sends
      and returns. */
  lemma EndsIff(cfg: Config, rx: Rx, input: seq<Tick>)
    requires Wf(rx) && rx.result.None?
    ensures var rx' := Next(cfg, rx, input);
            && (rx'.result.Some? <==>
                  || AbortKey(input) || TwoCancels(input) || TooManyErrors(rx, input)
                  || NoName(rx, input) || TooBig(cfg, rx, input) || WriteFails(cfg, rx, input))
            && (AbortKey(input) ==> rx'.result == Some(-3) && rx'.out == rx.out + [0x18, 0x18])
            && (TwoCancels(input) ==> rx'.result == Some(0) && rx'.out == rx.out + [0x06])
            && (TooManyErrors(rx, input) ==> rx'.result == Some(0) && rx'.out == rx.out + [0x18, 0x18])
            && (NoName(rx, input) ==> rx'.result == Some(rx.size) && rx'.out == rx.out + [0x06])
            && (TooBig(cfg, rx, input) ==> rx'.result == Some(-1) && rx'.out == rx.out + [0x18, 0x18])
            && (WriteFails(cfg, rx, input) ==> rx'.result == Some(-2) && rx'.out == rx.out + [0x18, 0x18])
  {
    KeysIff(rx.packet, input);
    hide Scan, OnPacket, AbortKey, TwoCancels;
    var (reply, packet, rest) := Scan(rx.packet, input);
    if reply.Received? {
      var rx1 := rx.(packet := packet, errors := 0);
      PacketEnds(cfg, rx1, reply.length);
    }
  }

  lemma PacketEnds(cfg: Config, rx: Rx, n: nat)
    requires Wf(rx) && rx.result.None? && 3 + n <= BUFFER_SIZE
    ensures var rx' := OnPacket(cfg, rx, n);
            var good := rx.packet[1] == rx.received % 256;
            && (good && rx.received > 0 && !ChipWrite(cfg, rx.chip, rx.dest, rx.packet[3..3 + n]).0 ==>
                  rx'.result == Some(-2) && rx'.out == rx.out + [0x18, 0x18])
            && (good && rx.received == 0 && rx.packet[3] == 0 ==>
                  rx'.result == Some(rx.size) && rx'.out == rx.out + [0x06])
            && (good && rx.received == 0 && rx.packet[3] != 0
                  && ParsedSize(rx.packet, rx.sizeText, rx.size) > cfg.max + 1 ==>
                  rx'.result == Some(-1) && rx'.out == rx.out + [0x18, 0x18])
            && (rx'.result.Some? ==>
                  && good
                  && if rx.received > 0 then !ChipWrite(cfg, rx.chip, rx.dest, rx.packet[3..3 + n]).0
                     else rx.packet[3] == 0 || ParsedSize(rx.packet, rx.sizeText, rx.size) > cfg.max + 1)
  {
    hide ChipWrite, ChipErase, ParsedSize, CutText;
  }

  /** A run that returns has had a last turn, which by `EndsIff` is one of the six. */
  lemma {:induction false} LastTurn(cfg: Config, rx: Rx, input: seq<Tick>) returns (last: Rx, n: nat)
    requires Wf(rx) && rx.result.None? && Run(cfg, rx, input).result.Some?
    ensures Wf(last) && last.result.None? && n <= |input| && Next(cfg, last, input[n..]) == Run(cfg, rx, input)
    decreases |input|, Patience(rx)
  {
    hide Handle;
    NextUnfolds(cfg, rx, input);
    var rx', rest := Next(cfg, rx, input), Scan(rx.packet, input).2;
    if rx'.result.Some? {
      last, n := rx, 0;
      assert input[0..] == input;
    } else {
      last, n := LastTurn(cfg, rx', rest);
      var k := Consumed(rx.packet, input);
      n := n + k;
      assert input[n..] == input[k..][n - k..];
    }
  }

  lemma {:induction false} FillTakes(buf: seq<byte>, i: nat, end: nat, input: seq<Tick>) returns (k: nat)
    requires i <= end <= |buf|
    ensures k <= |input| && Fill(buf, i, end, input).2 == input[k..]
    decreases end - i
  {
    k := 0;
    if i == end {
      assert input[0..] == input;
    } else {
      k := |input| - |Tail(input)|;
      assert Tail(input) == input[k..];
      if Head(input).Got? {
        var n := FillTakes(buf[i := Head(input).b], i + 1, end, Tail(input));
        assert input[k + n..] == input[k..][n..];
        k := k + n;
      }
    }
  }

  lemma Consumed(buf: seq<byte>, input: seq<Tick>) returns (k: nat)
    requires |buf| == BUFFER_SIZE
    ensures k <= |input| && Scan(buf, input).2 == input[k..]
  {
    hide Fill;
    if input != [] && (input[0] == Got(0x01) || input[0] == Got(0x02)) {
      var c := input[0].b;
      k := FillTakes(buf[0 := c], 1, SizeOf(c) + PACKET_OVERHEAD, input[1..]);
      assert input[1..][k..] == input[k + 1..];
      k := k + 1;
    } else {
      OthersRead(buf, input);
      k := if input != [] && input[0] == Got(0x18) then 2 else 1;
      k := if k <= |input| then k else |input|;
    }
  }

  lemma NextUnfolds(cfg: Config, rx: Rx, input: seq<Tick>)
    requires Wf(rx) && rx.result.None? && (input != [] || rx.begun)
    ensures Wf(Next(cfg, rx, input)) && Run(cfg, rx, input) == Run(cfg, Next(cfg, rx, input), Scan(rx.packet, input).2)
    ensures |Scan(rx.packet, input).2| < |input| || (input == [] && Patience(Next(cfg, rx, input)) < Patience(rx))
    ensures Next(cfg, rx, input).result.Some? ==>
              Run(cfg, Next(cfg, rx, input), Scan(rx.packet, input).2) == Next(cfg, rx, input)
  {
    RunUnfolds(cfg, rx, input);
  }

  /** And of the turns that are not the last: what each sends. */
  lemma GoesOn(cfg: Config, rx: Rx, input: seq<Tick>)
    requires Wf(rx) && rx.result.None? && Next(cfg, rx, input).result.None?
    ensures var (rx', reply) := (Next(cfg, rx, input), Scan(rx.packet, input).0);
            && (EndMark(input) ==> rx'.out == rx.out + [0x06])
            && (reply.Failed? ==> rx'.out == rx.out + [0x43])
            && (Expected(rx, input) && rx.received > 0 ==> rx'.out == rx.out + [0x06])
            && (Expected(rx, input) && rx.received == 0 ==> rx'.out == rx.out + [0x06, 0x43])
            && (reply.Received? && !Expected(rx, input) ==> rx'.out == rx.out + [0x15])
  {
    KeysIff(rx.packet, input);
    hide Scan, ChipWrite, ChipErase, ParsedSize, CutText, EndMark;
  }
}
