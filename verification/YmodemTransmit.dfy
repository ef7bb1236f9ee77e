/** `Ymodem_Transmit` as the program runs it, proved to be the sender of module `Sender`. */
module YmodemTransmit {
  import opened Bytes
  import opened Numerals
  import opened Packet
  import opened Block0
  import opened Blocks
  import opened Checksums
  import opened Sender

  class Session {
    const uart: Uart
    const packetData: array<byte>

    ghost predicate Valid() { packetData.Length == BUFFER_SIZE }

    constructor (uart: Uart)
      ensures Valid() && this.uart == uart && fresh(packetData)
    {
      this.uart := uart;
      packetData := new byte[BUFFER_SIZE];
    }

    /** The specification's state at a loop head. */
    ghost function At(phase: Phase, errors: nat): Tx
      reads uart
    {
      Tx(phase, errors, uart.sent, if errors >= TRIES then Some(errors) else None)
    }

    /** `Ymodem_SendPacket`. */
    method SendPacket(length: nat)
      requires Valid() && length <= BUFFER_SIZE
      modifies uart`sent
      ensures uart.sent == old(uart.sent) + packetData[..length]
    {
      var i := 0;
      while i < length
        invariant 0 <= i <= length && uart.sent == old(uart.sent) + packetData[..i]
      {
        uart.SendByte(packetData[i]);
        assert packetData[..i + 1] == packetData[..i] + [packetData[i]];
        i := i + 1;
      }
    }

    method SendWithCrc(size: nat)
      requires Valid() && PACKET_HEADER + size <= BUFFER_SIZE
      modifies uart`sent
      ensures uart.sent == old(uart.sent)
                + (packetData[..PACKET_HEADER + size] + Trailer(packetData[PACKET_HEADER..PACKET_HEADER + size]))
    {
      SendPacket(PACKET_HEADER + size);
      var crc := CalCrc16(packetData, PACKET_HEADER, size);
      uart.SendByte(crc / 256);
      uart.SendByte(crc % 256);
    }

    lemma HeaderTurn(job: Job, errors: nat, tx: Tx, t: Tick)
      requires GoodJob(job) && tx.phase == Announce && tx.errors == errors < TRIES && tx.result.None?
      ensures var out := tx.out + Message(job, tx);
              Turn(job, tx, t) ==
                if t == Got(ACK) then Tx(Await, errors, out, None)
                else if t.Got? then Tx(Announce, errors, out, None)
                else Tx(Announce, errors + 1, out, if errors + 1 >= TRIES then Some(errors + 1) else None)
    {
      hide Message;
    }

    /** One attempt at the header. */
    method TryHeader(ghost job: Job, ghost errors: nat) returns (t: Tick)
      requires Valid() && GoodJob(job) && errors < TRIES && packetData[..PACKET_SIZE + PACKET_HEADER] == job.header
      modifies uart
      ensures t == Head(old(uart.input)) && uart.input == Tail(old(uart.input))
      ensures Run(job, old(At(Announce, errors)), old(uart.input)) ==
                Run(job, if t == Got(ACK) then At(Await, errors)
                         else At(Announce, if t.Got? then errors else errors + 1), uart.input)
    {
      hide Run, Turn;
      ghost var tx := At(Announce, errors);
      RunUnfolds(job, tx, uart.input);
      assert packetData[PACKET_HEADER..PACKET_HEADER + PACKET_SIZE] == job.header[PACKET_HEADER..];
      SendWithCrc(PACKET_SIZE);
      t := uart.ReceiveByte();
      HeaderTurn(job, errors, tx, t);
    }

    /** The header loop. */
    method SendHeader(ghost job: Job) returns (errors: nat)
      requires Valid() && GoodJob(job) && packetData[..PACKET_SIZE + PACKET_HEADER] == job.header
      modifies uart
      ensures Run(job, old(At(Announce, 0)), old(uart.input)) == Run(job, At(if errors >= TRIES
                then Announce else Await, errors), uart.input)
    {
      hide Run;
      ghost var end := Run(job, At(Announce, 0), uart.input);
      var ackReceived := false;
      errors := 0;
      while !ackReceived && errors < TRIES
        invariant errors <= TRIES && (ackReceived ==> errors < TRIES)
        invariant Run(job, At(if ackReceived then Await else Announce, errors), uart.input) == end
        decreases !ackReceived, |uart.input|, TRIES - errors
      {
        var t := TryHeader(job, errors);
        if t.Got? { ackReceived := t.b == ACK; } else { errors := errors + 1; }
      }
    }

    /** The packet buffer holds the block's packet. */
    ghost predicate Prepared(job: Job, at: nat, blkNumber: nat, pktSize: nat)
      reads packetData
    {
      && Valid() && at < |job.file| && pktSize == BlockSize(|job.file| - at)
      && packetData[..PACKET_HEADER + pktSize] ==
           [if pktSize == PACKET_1K_SIZE then STX
               else SOH, blkNumber % 256, 255 - blkNumber % 256] + Payload(job.file, at)
    }

    method SendBlockPacket(ghost job: Job, ghost tx: Tx, ghost at: nat, ghost blkNumber: nat, pktSize: nat)
      requires WfTx(job, tx) && tx.phase == Data(at, blkNumber) && Prepared(job, at, blkNumber, pktSize)
      modifies uart`sent
      ensures uart.sent == old(uart.sent) + Message(job, tx)
    {
      assert packetData[PACKET_HEADER..PACKET_HEADER + pktSize] == Payload(job.file, at);
      SendWithCrc(pktSize);
    }

    /** What one attempt at a data block means to the specification. */
    lemma BlockTurn(job: Job, at: nat, block: nat, errors: nat, tx: Tx, t: Tick)
      requires GoodJob(job) && at < |job.file| && tx.phase == Data(at, block) && tx.errors == errors < TRIES
                && tx.result.None?
      ensures WfTx(job, tx)
      ensures var out := tx.out + Message(job, tx);
              Turn(job, tx, t) ==
                if t == Got(ACK) then Tx(NextBlock(job, at + BlockSize(|job.file| - at), block + 1), 0, out, None)
                else Tx(Data(at, block), errors + 1, out, if errors + 1 >= TRIES then Some(errors + 1) else None)
    {
      hide Message;
    }

    /** One attempt at a data block. */
    method TryBlock(ghost job: Job, ghost at: nat, ghost blkNumber: nat, pktSize: nat,
        ghost errors: nat) returns (acked: bool)
      requires GoodJob(job) && Prepared(job, at, blkNumber, pktSize) && errors < TRIES
      modifies uart
      ensures Run(job, old(At(Data(at, blkNumber), errors)), old(uart.input)) ==
                Run(job, if acked then At(NextBlock(job, at + pktSize, blkNumber + 1), 0)
                         else At(Data(at, blkNumber), errors + 1), uart.input)
    {
      ghost var tx, input := At(Data(at, blkNumber), errors), uart.input;
      hide Message, Run, Turn, Payload;
      RunUnfolds(job, tx, input);
      SendBlockPacket(job, tx, at, blkNumber, pktSize);
      var t := uart.ReceiveByte();
      acked := t == Got(ACK);
      BlockTurn(job, at, blkNumber, errors, tx, t);
      assert Turn(job, tx, t) == if acked then At(NextBlock(job, at + pktSize, blkNumber + 1), 0)
                                 else At(Data(at, blkNumber), errors + 1);
    }

    /** The loop of one data block. */
    method SendBlock(ghost job: Job, ghost at: nat, ghost blkNumber: nat, pktSize: nat) returns (errors: nat)
      requires GoodJob(job) && Prepared(job, at, blkNumber, pktSize)
      modifies uart
      ensures errors <= TRIES
      ensures Run(job, old(At(Data(at, blkNumber), 0)), old(uart.input)) ==
                Run(job, if errors >= TRIES then At(Data(at, blkNumber), errors)
                         else At(NextBlock(job, at + pktSize, blkNumber + 1), 0), uart.input)
    {
      hide Run, Turn, Payload;
      ghost var end := Run(job, At(Data(at, blkNumber), 0), uart.input);
      var ackReceived := false;
      errors := 0;
      while !ackReceived && errors < TRIES
        invariant errors <= TRIES && (ackReceived ==> errors < TRIES)
        invariant end == Run(job, if ackReceived then At(NextBlock(job, at + pktSize, blkNumber + 1), 0)
                                  else At(Data(at, blkNumber), errors), uart.input)
        decreases !ackReceived, TRIES - errors
      {
        ackReceived := TryBlock(job, at, blkNumber, pktSize, errors);
        if !ackReceived { errors := errors + 1; }
      }
    }

    /** Prepares and sends one block. */
    method SendNext(ghost job: Job, file: seq<byte>, bufPtr: nat, blkNumber: nat, size: nat) returns (errors: nat,
        pktSize: nat)
      requires Valid() && GoodJob(job) && file == job.file && bufPtr < |file| && size == |file| - bufPtr
      modifies uart, packetData
      ensures errors <= TRIES && pktSize == BlockSize(size) > 0
      ensures Run(job, old(At(Data(bufPtr, blkNumber), 0)), old(uart.input)) ==
                Run(job, if errors >= TRIES then At(Data(bufPtr, blkNumber), errors)
                         else At(NextBlock(job, bufPtr + pktSize, blkNumber + 1), 0), uart.input)
    {
      hide Run, Turn, Payload, GoodJob;
      PreparePacket(file, bufPtr, packetData, blkNumber % 256, size);
      pktSize := if size >= PACKET_1K_SIZE then PACKET_1K_SIZE else PACKET_SIZE;
      errors := SendBlock(job, bufPtr, blkNumber, pktSize);
    }

    /** The data loop; `at` and `block` say where it stopped. */
    method SendFile(ghost job: Job, file: seq<byte>) returns (errors: nat, ghost at: nat, ghost block: nat)
      requires Valid() && GoodJob(job) && file == job.file
      modifies uart, packetData
      ensures errors <= TRIES && (errors >= TRIES ==> at < |file|)
      ensures Run(job, old(At(NextBlock(job, 0, 1), 0)), old(uart.input)) ==
                Run(job, if errors >= TRIES then At(Data(at, block), errors) else At(EndFile, 0), uart.input)
    {
      hide Run, Turn, BlockSize, GoodJob;
      ghost var end := Run(job, At(NextBlock(job, 0, 1), 0), uart.input);
      var size, bufPtr, blkNumber := |file|, 0, 1;
      errors := 0;
      while size > 0
        invariant size == if bufPtr < |file| then |file| - bufPtr else 0
        invariant errors == 0
        invariant Run(job, At(NextBlock(job, bufPtr, blkNumber), 0), uart.input) == end
        decreases size
      {
        var pktSize;
        errors, pktSize := SendNext(job, file, bufPtr, blkNumber, size);
        if errors >= TRIES {
          at, block := bufPtr, blkNumber;
          return;
        }
        errors := 0;
        bufPtr := bufPtr + pktSize;
        if size > pktSize { size := size - pktSize; } else { size := 0; }
        blkNumber := blkNumber + 1;
      }
      at, block := bufPtr, blkNumber;
    }

    lemma EotTurn(job: Job, errors: nat, tx: Tx, t: Tick)
      requires GoodJob(job) && tx.phase == EndFile && tx.errors == errors < TRIES && tx.result.None?
      ensures var out := tx.out + [EOT];
              Turn(job, tx, t) ==
                if t == Got(ACK) then Tx(EndSession, 0, out, None)
                else Tx(EndFile, errors + 1, out, if errors + 1 >= TRIES then Some(errors + 1) else None)
    { }

    /** One end of transmission. */
    method TryEot(ghost job: Job, ghost errors: nat) returns (t: Tick)
      requires Valid() && GoodJob(job) && errors < TRIES
      modifies uart
      ensures Run(job, old(At(EndFile, errors)), old(uart.input)) ==
                Run(job, if t == Got(ACK) then At(EndSession, 0) else At(EndFile, errors + 1), uart.input)
    {
      hide Run, Turn;
      ghost var tx := At(EndFile, errors);
      RunUnfolds(job, tx, uart.input);
      uart.SendByte(EOT);
      t := uart.ReceiveByte();
      EotTurn(job, errors, tx, t);
    }

    /** The end-of-transmission loop. */
    method SendEot(ghost job: Job) returns (errors: nat)
      requires Valid() && GoodJob(job)
      modifies uart
      ensures errors <= TRIES
      ensures Run(job, old(At(EndFile, 0)), old(uart.input)) ==
                Run(job, if errors >= TRIES then At(EndFile, errors) else At(EndSession, 0), uart.input)
    {
      hide Run, GoodJob;
      ghost var end := Run(job, At(EndFile, 0), uart.input);
      var ackReceived := false;
      errors := 0;
      while !ackReceived && errors < TRIES
        invariant errors <= TRIES && (ackReceived ==> errors < TRIES)
        invariant end == Run(job, if ackReceived then At(EndSession, 0) else At(EndFile, errors), uart.input)
        decreases !ackReceived, TRIES - errors
      {
        var t := TryEot(job, errors);
        if t == Got(ACK) { ackReceived := true; } else { errors := errors + 1; }
      }
    }

    /** The packet buffer holds the empty header. */
    ghost predicate EmptyPrepared()
      reads packetData
    {
      && Valid()
      && packetData[..PACKET_HEADER + PACKET_SIZE] + Trailer(packetData[PACKET_HEADER..PACKET_HEADER + PACKET_SIZE])
           == EmptyHeader()
    }

    method PrepareEmpty()
      requires Valid()
      modifies packetData
      ensures EmptyPrepared()
    {
      packetData[0], packetData[1], packetData[2] := SOH, 0, 0xFF;
      forall i | PACKET_HEADER <= i < PACKET_HEADER + PACKET_SIZE { packetData[i] := 0; }
      assert packetData[PACKET_HEADER..PACKET_HEADER + PACKET_SIZE] == Repeat(0, PACKET_SIZE);
      assert packetData[..PACKET_HEADER + PACKET_SIZE] == [SOH, 0, 0xFF] + Repeat(0, PACKET_SIZE);
    }

    lemma EmptyTurn(job: Job, errors: nat, tx: Tx, t: Tick)
      requires GoodJob(job) && tx.phase == EndSession && tx.errors == errors < TRIES && tx.result.None?
      ensures var out := tx.out + EmptyHeader();
              Turn(job, tx, t) ==
                if t == Got(ACK) then Tx(LastEnd, errors, out, None)
                else if t.Got? then Tx(EndSession, errors, out, None)
                else Tx(EndSession, errors + 1, out, if errors + 1 >= TRIES then Some(errors + 1) else None)
    {
      hide EmptyHeader;
    }

    /** One attempt at the empty header. */
    method TryEmpty(ghost job: Job, ghost errors: nat) returns (t: Tick)
      requires Valid() && GoodJob(job) && errors < TRIES
      requires EmptyPrepared()
      modifies uart
      ensures t == Head(old(uart.input)) && uart.input == Tail(old(uart.input))
      ensures Run(job, old(At(EndSession, errors)), old(uart.input)) ==
                Run(job, if t == Got(ACK) then At(LastEnd, errors)
                         else At(EndSession, if t.Got? then errors else errors + 1), uart.input)
    {
      hide Run, Turn, EmptyHeader;
      ghost var tx := At(EndSession, errors);
      RunUnfolds(job, tx, uart.input);
      SendWithCrc(PACKET_SIZE);
      t := uart.ReceiveByte();
      EmptyTurn(job, errors, tx, t);
    }

    /** The loop of the empty header that ends the session. */
    method SendEmpty(ghost job: Job) returns (errors: nat)
      requires Valid() && GoodJob(job)
      modifies uart, packetData
      ensures errors <= TRIES
      ensures Run(job, old(At(EndSession, 0)), old(uart.input)) ==
                Run(job, At(if errors >= TRIES then EndSession else LastEnd, errors), uart.input)
    {
      hide Run, EmptyPrepared;
      ghost var end := Run(job, At(EndSession, 0), uart.input);
      PrepareEmpty();
      var ackReceived := false;
      errors := 0;
      while !ackReceived && errors < TRIES
        invariant errors <= TRIES && (ackReceived ==> errors < TRIES)
        invariant Run(job, At(if ackReceived then LastEnd else EndSession, errors), uart.input) == end
        invariant EmptyPrepared()
        decreases !ackReceived, |uart.input|, TRIES - errors
      {
        var t := TryEmpty(job, errors);
        if t.Got? { ackReceived := t.b == ACK; } else { errors := errors + 1; }
      }
    }

    /** `ackReceived` is still set from the header, so the last loop turns once. */
    method SendLastEnd(ghost job: Job, errors: nat) returns (status: nat)
      requires Valid() && GoodJob(job) && errors < TRIES
      modifies uart
      ensures Run(job, old(At(LastEnd, errors)), old(uart.input)).result == Some(status)
      ensures Run(job, old(At(LastEnd, errors)), old(uart.input)).out == uart.sent
    {
      RunUnfolds(job, At(LastEnd, errors), uart.input);
      uart.SendByte(EOT);
      var t := uart.ReceiveByte();
      status := if t != Got(ACK) && errors + 1 >= TRIES then errors + 1 else 0;
    }

    lemma GivenUp(job: Job, tx: Tx)
      requires WfTx(job, tx) && tx.result.Some?
      ensures Run(job, tx, uart.input) == tx
    { }

    /** The byte behind the acknowledgement of the header: whatever it is, the data phase begins. */
    method SkipByte(ghost job: Job, ghost errors: nat)
      requires Valid() && GoodJob(job) && errors < TRIES
      modifies uart
      ensures Run(job, old(At(Await, errors)), old(uart.input)) == Run(job, At(NextBlock(job, 0, 1), 0), uart.input)
    {
      hide Run;
      RunUnfolds(job, At(Await, errors), uart.input);
      var _ := uart.ReceiveByte();
      assert uart.sent + [] == uart.sent;
    }

    /** `Ymodem_Transmit`: the status and every byte sent are those of the specification's run. */
    method Transmit(fileName: array<byte>, file: seq<byte>, stack: seq<byte>, ghost job: Job) returns (status: nat)
      requires Valid() && fileName.Length == FILE_NAME_LENGTH && fileName != packetData && GoodStack(stack)
                && |file| < TWO32
      requires job == Job(HeaderBytes(CString(fileName[..]), CString(DigitBuffer(|file|, stack))), file)
      modifies uart, packetData
      ensures GoodJob(job)
      ensures var end := Run(job, old(At(Announce, 0)), old(uart.input));
              end.result == Some(status) && end.out == uart.sent
    {
      assert GoodJob(job);
      hide HeaderBytes, CString, DigitBuffer, GoodJob, Run, Turn;
      PrepareInitialPacket(packetData, fileName, |file|, stack);
      var errors := SendHeader(job);
      if errors >= TRIES {
        GivenUp(job, At(Announce, errors));
        return errors;
      }
      SkipByte(job, errors);
      ghost var at, block;
      errors, at, block := SendFile(job, file);
      if errors >= TRIES {
        GivenUp(job, At(Data(at, block), errors));
        return errors;
      }
      errors := SendEot(job);
      if errors >= TRIES {
        GivenUp(job, At(EndFile, errors));
        return errors;
      }
      errors := SendEmpty(job);
      if errors >= TRIES {
        GivenUp(job, At(EndSession, errors));
        return errors;
      }
      status := SendLastEnd(job, errors);
    }
  }
}
