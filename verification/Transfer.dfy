/** The two programs on either end of a faultless line. */
module Transfer {
  import opened Bytes
  import opened FlashMemory
  import opened Numerals
  import opened Packet
  import opened Block0
  import opened Blocks
  import opened Delivery
  import opened StopAndWait
  import opened StopAndWaitSafety
  import opened EndToEnd
  import P = Partitions
  import R = Receiver
  import T = Sender
  import Rx = YmodemReceive
  import Tx = YmodemTransmit

  /** A receiver that has just been called for this transfer. */
  ghost predicate Called(receiver: Rx.Session, l: Link)
    reads receiver, receiver.uart, receiver.flash
  {
    && receiver.Valid() && receiver.packetsReceived == 0 && receiver.errors == 0 && !receiver.sessionBegin
    && receiver.size == 0 && receiver.result == None && receiver.log == [] && receiver.uart.sent == []
    && receiver.flash.script == [] && receiver.flash.powered && receiver.flash.sectors(receiver.device) == l.sectors
    && (receiver.device in receiver.flash.readsBack <==> l.readsBack)
    && receiver.maxRecvSize == l.max && receiver.flashDestination == l.start
    && receiver.flash.mem[receiver.device] == l.flash
  }

  /** Either end as the step model sees it. */
  ghost function Ends(receiver: Rx.Session): Net
    requires receiver.Valid()
    reads receiver, receiver.uart, receiver.flash, receiver.packetData, receiver.fileSize
  {
    Net(T.Tx(T.Announce, 0, [], None), false, receiver.Model(), [], [])
  }

  lemma EndsInitial(receiver: Rx.Session, l: Link)
    requires GoodLink(l) && Called(receiver, l)
    ensures Initial(l, Ends(receiver)) && Inv(l, Ends(receiver)) && receiver.Setting() == Setting(l)
  {
    InitialInv(l, Ends(receiver));
  }

  /** Each program reads exactly what the other one sends: the sender returns 0, the receiver the
      size of the file, and the padded file is in flash. The byte of the sender's stack behind
      its digits has to be 0. */
  method RunBothEnds(sender: Tx.Session, receiver: Rx.Session, fileName: array<byte>, stack: seq<byte>, l: Link)
    returns (status: nat, code: Option<int>)
    requires GoodLink(l) && Called(receiver, l)
    requires sender.Valid() && sender.uart.sent == [] && sender.uart != receiver.uart
    requires fileName.Length == FILE_NAME_LENGTH && CString(fileName[..]) == l.name && fileName != sender.packetData
    requires sender.packetData !in {receiver.packetData, receiver.buf, receiver.fileName, receiver.fileSize}
    requires fileName !in {receiver.packetData, receiver.buf, receiver.fileName, receiver.fileSize}
    requires GoodStack(stack) && |Digits(|l.file|)| < |stack| && stack[|Digits(|l.file|)|] == 0
    requires Inv(l, Ends(receiver))
    requires var end := Exchanges(l, Ends(receiver), 4 + Total(l));
             sender.uart.input == Ticks(end.rx.out) && receiver.uart.input == Ticks(end.tx.out)
    modifies sender.uart, sender.packetData
    modifies receiver, receiver.uart, receiver.flash, receiver.packetData, receiver.buf, receiver.fileName
    modifies receiver.fileSize
    ensures status == 0 && code == Some(Size(l))
    ensures receiver.Valid() && Delivered(l, receiver.flash.mem[receiver.device])
    ensures old(sender.uart.input) == Ticks(receiver.uart.sent) && old(receiver.uart.input) == Ticks(sender.uart.sent)
  {
    hide Inv, Initial, Exchanges, Delivered, GoodLink, Total, LogAt, R.Run, T.Run;
    hide Digits, DigitBuffer, CString, HeaderBytes;
    ghost var s0 := Ends(receiver);
    EndsInitial(receiver, l);
    WholeTransfer(l, s0);
    ghost var end := Exchanges(l, s0, 4 + Total(l));
    SenderStarts(l, sender, fileName, stack);
    status := sender.Transmit(fileName, l.file, stack, JobOf(l));
    code := receiver.Receive();
  }

  lemma SenderStarts(l: Link, sender: Tx.Session, fileName: array<byte>, stack: seq<byte>)
    requires GoodLink(l) && sender.uart.sent == [] && CString(fileName[..]) == l.name
    requires GoodStack(stack) && |Digits(|l.file|)| < |stack| && stack[|Digits(|l.file|)|] == 0
    ensures JobOf(l) == T.Job(HeaderBytes(CString(fileName[..]), CString(DigitBuffer(|l.file|, stack))), l.file)
    ensures sender.At(T.Announce, 0) == T.Tx(T.Announce, 0, [], None) && |l.file| < TWO32
  {
    DigitCount(|l.file|, 10);
    FieldIsDigits(|l.file|, stack);
  }

  // ---- the example of the help text ----

  lemma FirstSpiSector(l: Link)
    requires l.start == 0x400 && 0 < l.max <= 0xC00 && l.sectors == P.Sectors(SpiFlash) && |l.flash| >= 0x1000
    ensures Sweeping(l) == (0, 0x1000)
  {
    assert l.sectors(0x400, l.max) == P.Touched(SpiFlash, 0x400, l.max);
  }

  /** A grant from 0x400 on in the first sector of SPI flash, such as 0x400 to 0x800: the transfer
      succeeds, and blanks the rest of the sector with it. */
  lemma SmallGrantWipes(l: Link, s0: Net)
    requires Initial(l, s0) && l.start == 0x400 && 0 < l.max <= 0xC00
    requires l.sectors == P.Sectors(SpiFlash) && |l.flash| >= 0x1000
    ensures Inv(l, s0)
    ensures var s := Exchanges(l, s0, 4 + Total(l));
            && s.rx.result == Some(Size(l)) && |s.rx.chip.mem| == |l.flash|
            && forall i :: 0 <= i < 0x400 || 0x400 + l.max <= i < 0x1000 ==> s.rx.chip.mem[i] == BLANK
  {
    hide *;
    GoodAtFirst(l, s0);
    WholeTransfer(l, s0);
    BlankBeside(l, Exchanges(l, s0, 4 + Total(l)).rx.chip.mem);
  }

  lemma BlankBeside(l: Link, m: seq<byte>)
    requires GoodLink(l) && Delivered(l, m) && l.start == 0x400 && 0 < l.max <= 0xC00
    requires l.sectors == P.Sectors(SpiFlash) && |l.flash| >= 0x1000
    ensures |m| == |l.flash| && forall i :: 0 <= i < 0x400 || 0x400 + l.max <= i < 0x1000 ==> m[i] == BLANK
  {
    hide FlashHolds, Delivered, Sweeping, BlockCount;
    FirstSpiSector(l);
    DeliveredHolds(l, m);
    FlashCells(l, 1 + Total(l), m);
  }

  lemma GoodAtFirst(l: Link, s0: Net)
    requires Initial(l, s0)
    ensures GoodLink(l) && l.start + l.max <= |l.flash|
  { }

  lemma DeliveredHolds(l: Link, m: seq<byte>)
    requires GoodLink(l) && Delivered(l, m)
    ensures FlashHolds(l, 1 + Total(l), m)
  { }
}
