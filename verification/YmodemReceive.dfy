/** `Ymodem_Receive` as the program runs it, proved to be the receiver of module `Receiver`. */
module YmodemReceive {
  import opened Bytes
  import opened FlashMemory
  import opened Numerals
  import opened Packet
  import opened Block0
  import opened Receiver

  /** The variables and buffers of one call. */
  class Session {
    const uart: Uart
    const flash: Flash<Device>
    const device: Device
    const maxRecvSize: nat
    const packetData: array<byte>
    const buf: array<byte>
    const fileName: array<byte>
    const fileSize: array<byte>
    var packetsReceived: nat
    var errors: nat
    var sessionBegin: bool
    var size: int
    var flashDestination: nat
    var result: Option<int>
    ghost var log: seq<Event>

    ghost predicate Valid()
      reads flash
    {
      && packetData.Length == BUFFER_SIZE && buf.Length == PACKET_1K_SIZE
      && fileName.Length == FILE_NAME_LENGTH + 1 && fileSize.Length == FILE_SIZE_LENGTH + 1
      && packetData != buf && packetData != fileName && packetData != fileSize
      && buf != fileName && buf != fileSize && fileName != fileSize
      && device in flash.mem && device !in flash.atomic
    }

    ghost function Setting(): Config {
      Config(flash.script, flash.sectors(device), device in flash.readsBack, maxRecvSize)
    }

    /** The state as module `Receiver` sees it. */
    ghost function Model(): (rx: Rx)
      requires Valid()
      reads this, uart, flash, packetData, fileSize
      ensures Wf(rx)
    {
      Rx(packetsReceived, errors, sessionBegin, size, flashDestination, packetData[..], fileSize[..], uart.sent,
         Chip(flash.mem[device], flash.calls, flash.powered), log, result)
    }

    constructor (uart: Uart, flash: Flash<Device>, device: Device, flashDestination: nat, maxRecvSize: nat)
      requires device in flash.mem && device !in flash.atomic
      ensures Valid() && this.uart == uart && this.flash == flash && this.device == device
      ensures this.flashDestination == flashDestination && this.maxRecvSize == maxRecvSize
      ensures packetsReceived == 0 && errors == 0 && !sessionBegin && size == 0 && result == None && log == []
      ensures fresh(this) && fresh(packetData) && fresh(buf) && fresh(fileName) && fresh(fileSize)
    {
      this.uart, this.flash, this.device, this.maxRecvSize := uart, flash, device, maxRecvSize;
      packetData, buf := new byte[BUFFER_SIZE], new byte[PACKET_1K_SIZE];
      fileName, fileSize := new byte[FILE_NAME_LENGTH + 1], new byte[FILE_SIZE_LENGTH + 1];
      packetsReceived, errors, sessionBegin, size := 0, 0, false, 0;
      this.flashDestination, result, log := flashDestination, None, [];
    }

    method SendTwo(a: byte, b: byte)
      modifies uart`sent
      ensures uart.sent == old(uart.sent) + [a, b]
    {
      uart.SendByte(a);
      uart.SendByte(b);
    }

    method ReadIt()
      requires Valid()
      modifies this`size, fileName, fileSize
      ensures Model() == ReadSize(old(Model()))
    {
      hide CutText, ParsedSize, NameLength;
      size := ParseHeader(packetData, fileName, fileSize, size);
    }

    method GrantIt()
      requires Valid() && packetsReceived == 0
      modifies this, uart, flash
      ensures Valid() && Model() == Grant(Setting(), old(Model())) && uart.input == old(uart.input)
    {
      if size > maxRecvSize + 1 {
        SendTwo(CA, CA);
        result := Some(-1);
        return;
      }
      var _ := flash.EraseSectors(device, flashDestination, maxRecvSize);
      SendTwo(ACK, CRC16);
      log := log + [Opened(packetData[1], flashDestination)];
      packetsReceived, sessionBegin := packetsReceived + 1, true;
    }

    /** The header packet of a file. */
    method OpenIt()
      requires Valid() && packetsReceived == 0
      modifies this, uart, flash, fileName, fileSize
      ensures Valid() && Model() == OpenFile(Setting(), old(Model())) && uart.input == old(uart.input)
    {
      ReadIt();
      GrantIt();
    }

    method FillBuffer(length: nat)
      requires Valid() && length <= PACKET_1K_SIZE
      modifies buf
      ensures buf[..length] == packetData[PACKET_HEADER..PACKET_HEADER + length]
    {
      forall k | 0 <= k < length { buf[k] := packetData[PACKET_HEADER + k]; }
    }

    ghost function ChipNow(): Chip
      requires Valid()
      reads flash
    {
      Chip(flash.mem[device], flash.calls, flash.powered)
    }

    /** Writes the payload. A failed write ends the call, so that what it does to the address
        is never seen. */
    method WriteIt(length: nat) returns (ok: bool)
      requires Valid() && 0 < length <= PACKET_1K_SIZE
      modifies this`flashDestination, flash, buf
      ensures Valid()
      ensures (ok, ChipNow()) == ChipWrite(Setting(), old(ChipNow()), old(flashDestination),
                packetData[PACKET_HEADER..PACKET_HEADER + length])
      ensures flashDestination == old(flashDestination) + if ok then length else 0
    {
      hide AfterWrite, Moved;
      FillBuffer(length);
      var err, next := flash.Write(device, flashDestination, buf, length);
      ok := err == NoErr;
      if ok { flashDestination := next; }
    }

    /** A data packet of a file. */
    method StoreIt(length: nat)
      requires Valid() && 0 < length <= PACKET_1K_SIZE
      modifies this, uart, flash, buf
      ensures Valid() && Model() == StoreData(Setting(), old(Model()), length) && uart.input == old(uart.input)
    {
      hide ChipWrite;
      ghost var payload, at := packetData[PACKET_HEADER..PACKET_HEADER + length], flashDestination;
      var ok := WriteIt(length);
      if !ok {
        SendTwo(CA, CA);
        result := Some(-2);
        return;
      }
      uart.SendByte(ACK);
      log := log + [Stored(packetData[1], at, payload)];
      packetsReceived, sessionBegin := packetsReceived + 1, true;
    }

    method NormalPacket(length: nat) returns (sessionDone: bool)
      requires Valid() && 0 < length <= PACKET_1K_SIZE && (packetsReceived > 0 ==> sessionBegin)
      modifies this, uart, flash, buf, fileName, fileSize
      ensures Valid() && Model() == OnPacket(Setting(), old(Model()), length) && uart.input == old(uart.input)
      ensures sessionDone ==> result.Some?
      ensures packetsReceived > 0 ==> sessionBegin
    {
      sessionDone := false;
      if packetData[1] != packetsReceived % 256 {
        uart.SendByte(NAK);
      } else if packetsReceived > 0 {
        StoreIt(length);
      } else if packetData[PACKET_HEADER] != 0 {
        OpenIt();
      } else {
        uart.SendByte(ACK);
        log := log + [Ended];
        sessionDone, result := true, Some(size);
      }
    }

    /** One turn of the packet loop. */
    method Turn() returns (fileDone: bool)
      requires Valid() && result.None? && (packetsReceived > 0 ==> sessionBegin)
      modifies this, uart, flash, packetData, buf, fileName, fileSize
      ensures Valid() && (packetsReceived > 0 ==> sessionBegin)
      ensures var (reply, packet, rest) := Scan(old(packetData[..]), old(uart.input));
              && uart.input == rest
              && Model() == Handle(Setting(), old(Model()).(packet := packet), reply).(received := packetsReceived)
              && (fileDone ==> reply.EndOfFile? || Stopped()) && (reply.EndOfFile? ==> fileDone)
              && (!reply.EndOfFile? ==> Model() == Handle(Setting(), old(Model()).(packet := packet), reply))
    {
      hide OnPacket;
      fileDone := false;
      var reply := ReceivePacket(uart, packetData);
      match reply
      case Received(length) =>
        errors := 0;
        fileDone := NormalPacket(length);
      case EndOfFile =>
        errors := 0;
        uart.SendByte(ACK);
        log := log + [Closed];
        fileDone := true;
      case SenderAbort =>
        errors := 0;
        uart.SendByte(ACK);
        log := log + [Cancelled];
        result := Some(0);
      case UserAbort =>
        SendTwo(CA, CA);
        result := Some(-3);
      case Failed =>
        if sessionBegin { errors := errors + 1; }
        if errors > MAX_ERRORS {
          SendTwo(CA, CA);
          result := Some(0);
        } else {
          uart.SendByte(CRC16);
        }
    }

    /** The state the next turn starts from: a finished file restarts the packet count. */
    ghost function Resumed(fileDone: bool): (rx: Rx)
      requires Valid()
      reads this, uart, flash, packetData, fileSize
      ensures Wf(rx)
    {
      if fileDone then Model().(received := 0) else Model()
    }

    /** A turn, seen as a step of the specification's run. */
    method Step() returns (fileDone: bool)
      requires Valid() && (packetsReceived > 0 ==> sessionBegin) && !Stopped()
      modifies this, uart, flash, packetData, buf, fileName, fileSize
      ensures Valid() && (packetsReceived > 0 ==> sessionBegin)
      ensures Run(Setting(), old(Model()), old(uart.input)) ==
                if Stopped() then Model() else Run(Setting(), Resumed(fileDone), uart.input)
      ensures |uart.input| < old(|uart.input|) ||
              (!fileDone && uart.input == old(uart.input) && Patience(Model()) < old(Patience(Model())))
              || (Stopped() && |uart.input| == old(|uart.input|))
    {
      ghost var rx, input := Model(), uart.input;
      ghost var (reply, packet, rest) := Scan(rx.packet, input);
      ghost var rx' := Handle(Setting(), rx.(packet := packet), reply);
      RunUnfolds(Setting(), rx, input);
      fileDone := Turn();
      assert Model() == if reply.EndOfFile? then rx'.(received := packetsReceived) else rx';
      assert reply.EndOfFile? ==> rx' == Resumed(true);
      if input == [] { assert reply.Failed? && packet == rx.packet && rx'.errors == rx.errors + 1; }
    }

    /** `Ymodem_Receive`. It returns exactly what the specification's run returns; the
        endless polling of a line that stays silent before any file is cut short with `None`. */
    method Receive() returns (code: Option<int>)
      requires Valid() && packetsReceived == 0 && errors == 0 && !sessionBegin && result.None?
      modifies this, uart, flash, packetData, buf, fileName, fileSize
      ensures Valid() && code == result
      ensures Model() == Run(Setting(), old(Model()), old(uart.input))
    {
      ghost var end := Run(Setting(), Model(), uart.input);
      var sessionDone := Stopped();
      while !sessionDone
        invariant Valid() && (packetsReceived > 0 ==> sessionBegin)
        invariant sessionDone == Stopped()
        invariant end == if sessionDone then Model() else Run(Setting(), Resumed(true), uart.input)
        decreases !sessionDone, |uart.input|
      {
        packetsReceived := 0;
        var fileDone := false;
        ghost var left := |uart.input|;
        while !fileDone && !Stopped()
          invariant Valid() && (packetsReceived > 0 ==> sessionBegin)
          invariant |uart.input| <= left && (fileDone && !Stopped() ==> |uart.input| < left)
          invariant end == if Stopped() then Model() else Run(Setting(), Resumed(fileDone), uart.input)
          decreases !fileDone && !Stopped(), |uart.input|, Patience(Model())
        {
          fileDone := Step();
        }
        sessionDone := Stopped();
      }
      code := result;
    }

    /** The run is over, or will poll a silent line for ever. */
    predicate Stopped()
      reads this, uart
    {
      result.Some? || (uart.input == [] && !sessionBegin)
    }
  }
}
