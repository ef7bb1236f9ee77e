# MICO bootloader: a verified model

The bootloader of the MICO IoT operating system brings firmware onto a board in three ways: over a
serial line with YMODEM, from an image an application has staged in flash (the over-the-air update),
and, at first boot, by copying the Wi-Fi driver to SPI flash. This project models that code in Dafny
and proves what it keeps, including when power goes at any flash call, when a write stores something
else than it was given, and when the serial line loses, delays or garbles messages. It also models the
command line (line editor and option parser) and the EasyLink button.

Code that changes state is modelled by methods and classes over the same variables and buffers as the
C code; each is proved equal to, or against, a specification, and the theorems are about that
specification.

| files | what they hold |
|---|---|
| `Bytes`, `Checksums`, `Numerals`, `NumeralLaws` | byte strings, CRC-16, number printing and parsing, and which texts are which numbers |
| `Polynomials`, `CrcLaws`, `CrcDetection` | CRC-16 as division of polynomials, and the damage it notices |
| `Flash`, `FlashLaws`, `BootTable`, `Partitions` | flash devices, the same in bits, words and sectors, the boot record, partitions as ranges of devices |
| `Update`, `UpdateRecovery`, `RecordLaws` | installing a staged image, what survives power failures, what the bytes of a record ask for |
| `RfCopy` | the RF driver copy |
| `Packet`, `Block0`, `HeaderSize`, `Blocks` | YMODEM framing, the header block, the size read from it, cutting a file into blocks |
| `Receiver`, `YmodemReceive` | the receiver: specification and program |
| `ReceiverSafety`, `ReceiverFlash`, `Overrun`, `Verdicts` | theorems about it: order and acknowledgements, what flash holds, what it lets through, what ends a session and how |
| `Sender`, `YmodemTransmit` | the sender: specification with its theorems, program |
| `SenderLine`, `SenderVerdicts` | theorems about it: what it puts on the line, what each answer does |
| `Delivery`, `StopAndWait`, `StopAndWaitSafety` | both ends over lossy channels: what every run keeps |
| `Stalling`, `Ending` | when a lost acknowledgement ends the transfer, and when the sender reports success |
| `EndToEnd`, `Transfer` | both ends over a faultless line: specifications, then the two programs |
| `Getline`, `Menu`, `OptionLaws` | the command line |
| `Button` | the EasyLink button |

## How the surroundings are modelled

- Flash is a memory map driven by a script that says what the device does to each call: it works, it
  refuses, it leaves arbitrary bytes in the range (and may still report success), or power goes during
  it. Programming only clears bits; an erase sets every byte of every sector it touches to 0xFF.
  Every theorem about flash is for all scripts, or says which outcomes it excludes. In all of them a
  read may fail, but one that reports success has returned what is stored: of a device that misreads
  and does not say so nothing is claimed.
- In the update, partitions are separate memories; `Partitions` proves that a disjoint partition table
  makes that right, and that the MiCOKit-3165's table is disjoint and sector aligned.
- The embedded flash driver reads back each word or byte it has programmed and stops with an error when
  bits were lost; the SPI driver does not. Which areas do is a parameter (`readsBack`).
- The embedded flash driver skips the erase of a sector in which every second word reads blank. A skip
  that leaves other bytes behind is an erase that stores arbitrary bytes and reports success.
- A power failure during a program or an erase leaves noise in the range it reached, except that the
  erase of the parameter partition is all or nothing (it is one 4 KiB sector).
- The serial line is a finite sequence of bytes and timeouts, followed by silence.
- The specifications `Receiver.Run` and `Sender.Run` are whole runs of either program on such a line.
  The stop-and-wait theorems put both in one system with two FIFO channels of whole messages; a step
  sends, delivers, reads, times out, loses any message on the way, or replaces one by a packet that is
  rejected.

## Where the code is not what its comments or users expect

Each of these is proved, with the exact condition.

Flash:

- An erase takes whole sectors, whatever range it is given. A grant that is not whole sectors, such as
  0x400 to 0x800 of SPI flash, loses what shares its sectors (`StopAndWaitSafety.GrantFrameIff`,
  `Transfer.SmallGrantWipes`). The help text gives that range for device 0, which is embedded flash and
  begins at 0x08000000: there erase and write are both refused.
- The receiver does not reset the flash address between files, and erases again for each header: the
  second file of a session takes away the end of the first one unless that is blank, or ends at a
  sector, or the second erase would run past the device and is refused
  (`ReceiverFlash.LaterHeaderSparesIff`, `Overrun.SecondFileWipesFirst`). It is refused when the grant
  reaches to the end of the device, as that of the MiCOKit-3165's application does
  (`ReceiverFlash.GrantToTheEnd`): a second file then goes to cells nobody has erased.
- The receiver compares sizes as signed numbers. It lets a header through whose size is one byte above
  the grant, and any whose size is 2^31 or more (`Overrun.HeaderOpensIff`, `Overrun.HugeSizeTaken`),
  and stores every block that comes, whatever size was announced (`Overrun.StoresWhateverComes`). Its
  writes stay in the grant if and only if the blocks fit it (`Overrun.StayIffBlocksFit`; for any input,
  `ReceiverFlash.WritesStayIff`; an input for which they do not, `Overrun.WritesBehindTheGrant`).

YMODEM:

- The receiver answers a packet it has already taken with NAK. A sender gets past a block, or the
  header, that has been taken if and only if it is still running and an acknowledgement is on the way
  (`Stalling.TakenLeftIff`; for every state, `Stalling.MovesOnIff`). Every block of every file can be
  the one a transfer ends at (`Stalling.StallReachable`). After a lost ACK of the header, sender and
  receiver exchange header and NAK for ever, over a faultless line and without an error counted
  (`Stalling.HeaderLoops`). A lost ACK of the end of transmission does no harm (`Stalling.EotRecovers`).
- A lost ACK of the empty header makes the sender report a failure: the receiver has returned and
  answers no more. The sender can still return 0 if and only if `Ending.CanEnd` holds
  (`Ending.StatusZeroIff`); once the receiver has returned, that is when an acknowledgement is on the
  way, or two when all but one try is used up (`Ending.ReturnedIff`). A run that delivers the file and
  returns 10 is in `Ending.DeliveredButFailed`.
- `Int2Str` writes no terminator: the size field runs on into the sender's stack. The header is well
  made exactly when the stack byte after the digits is 0 (`Block0.HeaderWellMadeIff`). The receiver
  reads the right size exactly when what follows the digits reads as the same 32-bit number and
  the size is below 2^31 (`HeaderSize.SizeRecoveredIff`), for fields of at most eight bytes exactly when that byte is a NUL
  or a blank (`HeaderSize.ShortFieldIff`). In a field of nine bytes there are coincidences
  (`HeaderSize.Coincidence`), and `HeaderSize.SizeLost` is an input for which the size is wrong.
- The receiver never looks at the CRC of a packet (`Packet.OnlyFramesReceived`).

The over-the-air update:

- `checkcrc` computes the CRC of the staged image and then returns success whether or not it matches
  (`UpdateRecovery.CrcPlaysNoPart`).
- One refused read while that CRC is computed makes the record look invalid: the staged image is
  erased while the record stays, and the next boot installs 0xFF. With a single refused call an update
  stays recoverable if and only if the call is not one of those reads, or the image is blank anyway
  (`UpdateRecovery.OneRefusal`, `UpdateRecovery.BlankInstalled`).
- `updateLogCheck` compares the image length with the destination only. A record with CRC 0xFFFF and a
  length beyond the staging area is accepted, and the destination is erased before the copy fails
  (`UpdateRecovery.InstallsIffImageFits`; with the MiCOKit-3165's sizes, `UpdateRecovery.TooLongAccepted`).

The command line and the button:

- `findCommandPara` reads on behind the end of the line when an option ends the line, and takes stale
  bytes of an earlier command as its value, whatever the limit on its length
  (`OptionLaws.ValueInLineIff`, `OptionLaws.StaleValue`).
- `getline` puts the terminator before its buffer when a one-byte buffer is used and the first key
  stores nothing, be it an erasing key, ^Q or ^S (`Getline.TerminatorInsideIff`,
  `Getline.TerminatorOutside`).
- A button pressed in the last millisecond before the 32-bit clock wraps is never a click
  (`Button.ClickIff`, `Button.ClickLost`).

## Model

| member | source | states |
|---|---|---|
| `FlashMemory.Flash.Erase` | Platform/MCU/mico_platform_common.c:547-578 | an empty range is no call; argument checks and their error codes; otherwise one device call whose outcome decides the bytes of every sector the range touches, nothing outside them, and the status |
| `FlashMemory.Flash.EraseSectors` | Platform/MCU/STM32F4xx/peripherals/platform_flash.c:259-281 | the same for a device address: whatever sectors the device says the range touches, all of them are erased; a range that touches none is left at that |
| `FlashMemory.Flash.Write` | Platform/MCU/mico_platform_common.c:580-612 | the same for a write, which can only clear bits; success moves the offset past the data, a failure part of the way; a driver that reads back fails a write that loses bits |
| `FlashMemory.HaltedMeans` | Platform/MCU/STM32F4xx/peripherals/platform_flash.c:350-408 | such a write stops exactly when bits are lost: all data is stored before the offset it reports, the word or byte there differs, and nothing behind that has been programmed |
| `FlashMemory.Flash.Read` | Platform/MCU/mico_platform_common.c:614-646 | a read fills the front of the buffer with the range, leaves the rest of the buffer, and moves the offset; a failed one leaves the buffer |
| `FlashMemory.ChunkWritten` | Platform/MCU/mico_platform_common.c:606-607 | whatever the device does, a write leaves the bytes around it; on blank cells a faithful one stores its data |
| `FlashLaws.WriteClearsBits` | Platform/MCU/STM32F4xx/peripherals/platform_flash.c:370-379 | a cell that has been written has a bit exactly when it had it before and the byte written has it |
| `FlashLaws.TornIff` | Platform/MCU/mico_platform_common.c:606-607 | what a write can leave when power goes: no bit comes back and none is lost that is to stay, and every such contents is possible |
| `FlashLaws.LosesBitsIff` | Platform/MCU/STM32F4xx/peripherals/platform_flash.c:374-375 | a driver that reads back finds a difference exactly when a bit to be written is not there any more |
| `FlashLaws.RewriteLosesNothing` | Platform/MCU/STM32F4xx/peripherals/platform_flash.c:370-379 | writing over itself what is there already changes nothing and is no failure |
| `FlashLaws.HaltedInWords` | Platform/MCU/STM32F4xx/peripherals/platform_flash.c:359-386 | where it stops: the word of the first byte that lost bits, or that byte alone when its word is not all data, is programmed with all in front of it, nothing behind is, and the offset points to its beginning |
| `FlashLaws.ErasedSectors` | Platform/MCU/STM32F4xx/peripherals/platform_flash.c:259-281 | an erase reaches from the beginning of the first sector to the end of the last |
| `FlashLaws.EmbeddedSectors` | Platform/MCU/STM32F4xx/peripherals/platform_flash.c:414-467 | the sectors of embedded flash: 16 KiB below 64 KiB, 64 KiB below 128 KiB, 128 KiB above |
| `FlashLaws.SpiSectors` | Platform/MCU/STM32F4xx/peripherals/platform_flash.c:327-346 | those of SPI flash: 4 KiB |
| `Checksums.UpdateByte` | libraries/utilities/CheckSumUtils.c:59-76 | the bit loop, which stops at a marker bit and cuts nothing off the register until the end, computes the same as shifting a masked 16-bit register and taking the polynomial off at each overflow |
| `Checksums.CalCrc16` | Bootloader/ymodem.c:362-371 | the loop over a buffer part is the CRC-16 of that part |
| `CrcLaws.CrcIsRemainder` | libraries/utilities/CheckSumUtils.c:59-98 | for every byte string, the CRC-16 is the remainder of the string, as a polynomial times x^16, modulo x^16 + x^12 + x^5 + 1: long division on bit strings |
| `CrcLaws.RegisterIsRemainder` | libraries/utilities/CheckSumUtils.c:59-90 | so is the register between two bytes, without the factor x^16 |
| `CrcLaws.CheckValue` | libraries/utilities/CheckSumUtils.c:79-98 | the CRC of the digits 1 to 9 is 0x31C3 |
| `CrcLaws.CrcOfOne` | libraries/utilities/CheckSumUtils.c:59-76 | that of the one byte 1 is 0x1021 |
| `CrcLaws.NoResidue` | Bootloader/ymodem.c:446-450 | a payload with its CRC behind it, high byte first, is a multiple of that polynomial and leaves the register at 0 |
| `CrcDetection.UnnoticedIff` | Bootloader/ymodem.c:362-371 | to a receiver that checks, damage to such a packet is unnoticed if and only if what was changed is a multiple of that polynomial |
| `CrcDetection.BurstNoticed` | Bootloader/ymodem.c:362-371 | so that any damage within sixteen bits in a row is noticed |
| `CrcDetection.GeneratorPasses` | Bootloader/ymodem.c:362-371 | and damage within seventeen need not be |
| `Bytes.FoldConcat` | Bootloader/Update_for_OTA.c:76-90 | for any byte step, feeding a checksum piece by piece gives the checksum of the whole |
| `Update.Updater.CheckCrc` | Bootloader/Update_for_OTA.c:58-96 | the value computed in 4096-byte pieces is the CRC-16 of exactly the image; success does not depend on it, only on the reads, of which there is one a piece |
| `Update.Updater.UpdateLogCheck` | Bootloader/Update_for_OTA.c:98-131 | with no failing call, NeedUpdate exactly for the accepted records, with their destination; an accepted record is turned down only when power is gone or a read for the CRC was refused, and always in the latter case |
| `RecordLaws.FieldsAt` | MICO/system/system.h:90-98 | in bytes of the record: address in 0 to 3, length in 4 to 7 and CRC in 18 and 19, lowest byte first, kind in 16, mark in 17 |
| `RecordLaws.AcceptedIff` | Bootloader/Update_for_OTA.c:98-131 | a record is acted on if and only if it is not blank, is marked 0x55, names the address of the staging area, has the letter A, B or D, fits that letter's partition and, unless its CRC is 0xFFFF, the staging area |
| `RecordLaws.ClassifiedAs` | Bootloader/Update_for_OTA.c:98-125 | which of the checks before the CRC turns a record down, by its bytes |
| `Update.Updater.EraseStaging` | Bootloader/Update_for_OTA.c:165-189 | a blank staging area of any length is left without an erase; in a run without failing calls any other is erased whole, for every length, in spite of the reused buffer; nothing else is ever touched |
| `Update.Updater.CopyChunk` | Bootloader/Update_for_OTA.c:215-223 | success means the chunk in the destination equals that of the image, even when writes may store anything, and no byte outside the chunk moved |
| `Update.Updater.CopyChunks` | Bootloader/Update_for_OTA.c:204-224 | success means the destination's first bytes equal the image for every length, 0 and multiples of 4096 included; on an erased destination the rest stays blank |
| `Update.Updater.CopyImage` | Bootloader/Update_for_OTA.c:200-224 | erase, then copy: succeeds in a calm run exactly when the image fits the staging area, and says what a failed copy leaves |
| `Update.Updater.ClearRecord` | Bootloader/Update_for_OTA.c:228-238 | when only power fails, the record is either as it was or blank; the settings behind it survive unless power went |
| `Update.Updater.Install` | Bootloader/Update_for_OTA.c:191-245 | any operation on the parameter partition comes after a verified copy, whatever the device does; when only power fails the record is gone only if the image is in place |
| `Update.Updater.Update` | Bootloader/Update_for_OTA.c:134-250 | a run without failing calls returns and leaves exactly `CalmUpdate`; with power failures only, one of the recoverable effects; with refused calls too, one of those, or a staged image gone through a refused CRC read; when that read is the only call to fail, exactly that; under arbitrary faults the record is touched only over a verified copy |
| `RecordLaws.InstalledWhere` | Bootloader/Update_for_OTA.c:113-120 | an update without failing calls changes Bootloader only if byte 16 of the record is 0x42, Application only if it is 0x41 and RfFirmware only if it is 0x44; that partition then holds the staged bytes, as many as bytes 4 to 7 say, and 0xFF behind them; the record is 0xFF and the settings behind it are kept |
| `RecordLaws.RefusedKeeps` | Bootloader/Update_for_OTA.c:165-189 | a record that is not acted on costs the staging area and nothing else |
| `RecordLaws.TooLongLeaves` | Bootloader/Update_for_OTA.c:204-216 | an image longer than the staging area leaves as many whole chunks of 4096 bytes as that holds, and 0xFF behind them; the record stays |
| `RecordLaws.StatusIff` | Bootloader/Update_for_OTA.c:147-193 | which of the three statuses such an update returns, as an iff for each |
| `Update.InstallEffect` | Bootloader/Update_for_OTA.c:200-243 | what writing destination, record and staging area amounts to: nothing but the destination, or the image installed and the record blank |
| `Update.StoppedShort` | Bootloader/Update_for_OTA.c:206-216 | a copy that outruns the staging area leaves its whole chunks and blank bytes after them |
| `UpdateRecovery.BootKeepsRecoverable` | Bootloader/Update_for_OTA.c:161-245 | one boot cut short anywhere keeps, for every destination: record and image both intact, or image installed and record blank; a finished job stays finished |
| `UpdateRecovery.AnyNumberOfBoots` | Bootloader/Update_for_OTA.c:161-245 | the same for any sequence of boots |
| `UpdateRecovery.CalmBootFinishes` | Bootloader/Update_for_OTA.c:161-245 | from any recoverable state one undisturbed boot installs the image, blanks record and staging area, keeps the settings and every other partition |
| `UpdateRecovery.PowerCycles` | Bootloader/Update_for_OTA.c:134-250 | boot after boot with finitely many power failures: always recoverable, and finished after enough boots |
| `UpdateRecovery.SecondUpdateChangesNothing` | Bootloader/Update_for_OTA.c:134-250 | a second run changes nothing, from any state |
| `UpdateRecovery.InstallsIffImageFits` | Bootloader/Update_for_OTA.c:124-128 | an accepted record is installed if and only if its length is within the staging area |
| `UpdateRecovery.TooLongAccepted` | Bootloader/Update_for_OTA.c:124-128 | with the MiCOKit-3165's sizes a record of 0x70001 bytes and CRC 0xFFFF is accepted, the end of the application is blank afterwards, and the record is still there |
| `UpdateRecovery.CrcPlaysNoPart` | Bootloader/Update_for_OTA.c:90-95 | two records that agree up to the CRC field and both give a CRC meet the same fate, whatever is staged |
| `UpdateRecovery.OneRefusal` | Bootloader/Update_for_OTA.c:161-189 | a boot in which one call is refused and all others work keeps a pending update recoverable if and only if that call is no read for the CRC, or the image is blank |
| `UpdateRecovery.BlankInstalled` | Bootloader/Update_for_OTA.c:90-95 | otherwise the next undisturbed boot installs blank bytes and clears the record |
| `UpdateRecovery.StagingKeptIff` | Bootloader/Update_for_OTA.c:165-189 | a change of the staging area alone keeps a pending update recoverable if and only if the image in it is the same |
| `Partitions.PutChangesOnePartition` | Platform/MCU/mico_platform_common.c:514-520 | with a disjoint table, storing into a partition changes that partition alone |
| `Partitions.WriteIsPartitionWrite` | Platform/MCU/mico_platform_common.c:583-607 | a device write at start + offset is the write of the partition seen as a memory of its own, for every outcome |
| `Partitions.EraseIsPartitionErase` | Platform/MCU/mico_platform_common.c:550-573 | the same for an erase, when the range is whole sectors |
| `Partitions.NeighbourSparedIff` | Platform/MCU/STM32F4xx/peripherals/platform_flash.c:327-346 | an erase of one range spares another if and only if what that has in the sectors erased is blank |
| `Partitions.OthersSparedIff` | Platform/MCU/STM32F4xx/peripherals/platform_flash.c:327-346 | erasing a partition spares all the others if and only if what they keep in the sectors it touches is blank |
| `Partitions.SectorsAscend` | Platform/MCU/STM32F4xx/peripherals/platform_flash.c:414-467 | a higher range of the same length touches no lower sector, on either device |
| `Partitions.RowSwept` | Platform/MCU/STM32F4xx/peripherals/platform_flash.c:414-467 | for each row, the sectors an erase of the whole partition sweeps are exactly the partition, and the copy flag's sector is apart from it |
| `Partitions.RowErased` | Platform/MCU/STM32F4xx/peripherals/platform_flash.c:259-281 | so that the erase of a row reaches exactly the row, on a device of any size that holds it |
| `Partitions.MicoKit3165Fits` | Board/MiCOKit-3165/platform.c:251-301 | the table is disjoint, every partition is whole sectors, no partition shares the copy flag's sector, the parameter partition fits the RAM buffer |
| `Partitions.TableTiles` | Board/MiCOKit-3165/platform.c:251-301 | which addresses belong to which partition: the first 512 KiB of embedded flash are bootloader, flag sector and application, the first 704 KiB of SPI flash partitions without a gap |
| `RfCopy.Copier.Crc8` | libraries/utilities/CheckSumUtils.c:43-51 | the running byte-step over a buffer front is the fold of that front |
| `RfCopy.Copier.CopyPieces` | Board/MiCOKit-3165/platform.c:519-533 | only the partition's bytes change; a successful honest run over blank cells leaves the whole staged driver in place |
| `RfCopy.Copier.CopyDriver` | Board/MiCOKit-3165/platform.c:510-533 | erase and copy: success of an honest run means the partition holds the driver; only the partition's sectors change, and embedded flash is not touched |
| `RfCopy.Copier.VerifyDriver` | Board/MiCOKit-3165/platform.c:538-555 | the piecewise checksum is that of the whole partition, for every length |
| `RfCopy.Copier.ClearFlag` | Board/MiCOKit-3165/platform.c:567 | at most the flag's sector changes, by one erase |
| `RfCopy.Copier.Boot` | Board/MiCOKit-3165/platform.c:494-572 | flag set: nothing happens; under arbitrary faults embedded flash is touched only by the erase of the flag's sector, over a partition that has the stored checksum; an honest run only over a faithful copy; a calm run is `CalmBoot` |
| `RfCopy.SourceSpared` | Board/MiCOKit-3165/platform.c:490-496 | the staged driver and its checksum survive whatever a boot does |
| `RfCopy.BootKeepsSafe` | Board/MiCOKit-3165/platform.c:494-572 | one boot cut short anywhere keeps: flag up and copy redoable, or driver in place with the right checksum |
| `RfCopy.BootsKeepSafe` | Board/MiCOKit-3165/platform.c:494-572 | the same for any sequence of boots |
| `RfCopy.CalmBootCommitsIff` | Board/MiCOKit-3165/platform.c:558-567 | an undisturbed boot lowers the flag if and only if the staged driver has the stored checksum; otherwise it copies and halts for ever |
| `RfCopy.CalmBootCells` | Board/MiCOKit-3165/platform.c:494-572 | what such a boot leaves in every cell: the driver from 0x40000 on in the partition, 0xFF in the rest of its sectors, and 0xFF from 0x8000 to 0xBFFF exactly when the flag is 0 and the checksum is the byte at 0x7FFFF |
| `RfCopy.PowerCycles` | Board/MiCOKit-3165/platform.c:494-572 | boot after boot with finitely many power failures ends with the driver in place, and the flag down exactly when its checksum is right |
| `Packet.ReceivePacket` | Bootloader/ymodem.c:89-138 | reply, buffer and input left are those of `Scan`, for every input, timeouts included |
| `Packet.FrameRoundTrip` | Bootloader/ymodem.c:89-138 | any frame of 128 or 1024 bytes is received with its length, number and payload, consuming exactly its bytes, whatever the buffer held |
| `Packet.OnlyFramesReceived` | Bootloader/ymodem.c:124-137 | conversely, what is received is a frame read from the line byte by byte, with any trailer at all |
| `Verdicts.ReplyIff` | Bootloader/ymodem.c:94-137 | which bytes draw which reply, each an iff: 0x41 or 0x61 an abort by the user, 0x18 twice one by the sender, 0x04 the end of the file, 0x01 or 0x02 with 132 or 1028 more bytes, number and complement adding up to 255, a packet |
| `Verdicts.PacketReads` | Bootloader/ymodem.c:124-131 | a packet takes all its bytes, or those up to the first timeout and that; what has come is in the buffer either way |
| `Verdicts.OthersRead` | Bootloader/ymodem.c:94-123 | anything else takes one byte or timeout, a 0x18 two, and leaves the buffer alone |
| `Numerals.Int2Str` | libraries/utilities/StringUtils.c:144-163 | the digits, without leading zeros, in front of what the buffer held: no terminator |
| `Numerals.ReadInt` | libraries/utilities/StringUtils.c:165-245 | the two loops compute `Str2Int`: 32-bit wrap, `k` and `m` suffixes, nothing when the text is no number or too long |
| `Numerals.PrintParse` | libraries/utilities/StringUtils.c:165-245 | `Str2Int` of the digits of n and a terminator is n, for every 32-bit n |
| `NumeralLaws.DecimalPrinted` | libraries/utilities/StringUtils.c:144-163 | the digits printed spell the number, and no zero leads |
| `NumeralLaws.DecimalIff` | libraries/utilities/StringUtils.c:204-239 | a text without 0x is taken for v if and only if at most ten figures stand in front of its end, or, one at least, of k or K (times 1024) or m or M (times 1048576), and v is their number in 32 bits; what follows a k or m does not matter |
| `NumeralLaws.HexIff` | libraries/utilities/StringUtils.c:170-202 | one with 0x or 0X is taken for v if and only if one to eight figures of either case follow that spell v, and then its end |
| `NumeralLaws.HexPrintParse` | libraries/utilities/StringUtils.c:170-202 | `Str2Int` of 0x, the hexadecimal digits of n in small or capital letters, and a terminator is n, for every 32-bit n |
| `Block0.PrepareInitialPacket` | Bootloader/ymodem.c:291-319 | the packet is name, NUL, size field, zeros, the size field running on behind the ten-byte digit buffer into the memory after it, up to a NUL |
| `Block0.HeaderIs` | Bootloader/ymodem.c:291-319 | every byte of it when there is room: 0x01, 0, 0xFF, the name, 0, the field, and 0 up to the end of 128 bytes |
| `Block0.ParseHeader` | Bootloader/ymodem.c:185-195 | name and size field as the two loops cut them, and the size parsed from it, or the previous size |
| `Block0.HeaderFields` | Bootloader/ymodem.c:185-195 | for any packet: the name is what stands before a NUL, 256 bytes at most, the size field what stands behind it before a blank, 16 at most; its number is taken as a signed 32-bit one, and a field that is no number changes nothing |
| `Block0.HeaderRoundTrip` | Bootloader/ymodem.c:182-195 | the receiver recovers the name, and the size as a signed 32-bit number, from every well-made header, whatever else its buffers hold |
| `Block0.HeaderWellMadeIff` | Bootloader/ymodem.c:309-313 | the header is well made if and only if the stack byte after the digits is 0 |
| `HeaderSize.SizeRead` | libraries/utilities/StringUtils.c:165-245 | what the receiver reads from the sender's own header, for every 32-bit size: the digits with what follows them up to a NUL or a blank, as a 32-bit decimal number of at most ten digits with an optional suffix, or hexadecimal when a 0 is followed by "x", or the previous size |
| `HeaderSize.SizeRecoveredIff` | Bootloader/ymodem.c:190-195 | the receiver gets the size of the file, whatever its buffers hold, if and only if that number is the size and is below 2^31 |
| `HeaderSize.ShortFieldIff` | Bootloader/ymodem.c:309-313 | for at most eight bytes of digits and tail: if and only if the stack byte after the digits is a NUL or a blank |
| `HeaderSize.PlainFieldRecovered` | Bootloader/ymodem.c:190-195 | with a NUL or a blank there the size is recovered if and only if it is below 2^31 |
| `HeaderSize.NameRecovered` | Bootloader/ymodem.c:183-188 | the name is recovered whatever the stack holds |
| `HeaderSize.Coincidence` | libraries/utilities/StringUtils.c:222-236 | a size of 1048576 followed by "1m" reads as 1048576 |
| `HeaderSize.SizeLost` | Bootloader/ymodem.c:309-313 | a file of 5 bytes whose digit is followed by "7" is read as one of 57 |
| `Blocks.PreparePacket` | Bootloader/ymodem.c:327-354 | start byte, number, complement, then the block of the file padded with 0x1A |
| `Blocks.PayloadIsSlice` | Bootloader/ymodem.c:332-353 | each block is the matching slice of the padded file |
| `Blocks.CutMakesUpPadded` | Bootloader/ymodem.c:478-541 | the blocks put end to end are the file padded to a multiple of 128 |
| `Blocks.BlockCountFormula` | Bootloader/ymodem.c:478-541 | there are n/1024 + ceil((n mod 1024)/128) of them |
| `Blocks.LastBlockEnds` | Bootloader/ymodem.c:478-541 | the last one ends at the padded length |
| `YmodemReceive.Session.StoreIt` | Bootloader/ymodem.c:221-241 | a data packet: one write of its payload at the next address, ACK and the new state, or CA CA and -2 |
| `YmodemReceive.Session.OpenIt` | Bootloader/ymodem.c:182-210 | a header packet: refused above the limit, otherwise every sector of the grant is erased and ACK, C sent |
| `YmodemReceive.Session.Turn` | Bootloader/ymodem.c:156-261 | one turn of the packet loop is one step of the specification |
| `YmodemReceive.Session.Receive` | Bootloader/ymodem.c:145-273 | the final state, flash, output and return value are those of the specification's run on the same input |
| `Verdicts.UserAborts` | Bootloader/ymodem.c:244-247 | 0x41 or 0x61 where a packet should begin, in any state and whatever follows: 0x18 0x18 is sent, -3 returned, flash and log are as they were |
| `Verdicts.SenderCancels` | Bootloader/ymodem.c:163-165 | 0x18 0x18: 0x06 is sent, 0 returned, flash as it was |
| `Verdicts.FileEnds` | Bootloader/ymodem.c:167-170 | 0x04: 0x06 is sent, and the next packet is a header again |
| `Verdicts.WrongNumber` | Bootloader/ymodem.c:173-176 | a packet with another number than expected: 0x15 is sent, the count of errors begins anew, nothing else changes |
| `Verdicts.EmptyHeaderEnds` | Bootloader/ymodem.c:212-218 | a header without a name: 0x06 is sent and the last size returned |
| `Verdicts.SilenceEnds` | Bootloader/ymodem.c:248-259 | once a file has begun silence is answered with 0x43 twenty times, then with 0x18 0x18 and 0 |
| `Verdicts.EndsIff` | Bootloader/ymodem.c:156-261 | a turn is the last one if and only if one of six things is on the line, and what it sends and returns for each: user abort -3, two cancels 0, the twenty-first failure in a row 0, a header without a name the last size, one with a size above the grant and one more byte -1, a block whose write fails -2 |
| `Verdicts.GoesOn` | Bootloader/ymodem.c:156-261 | what each other turn sends: 0x06, 0x06 0x43, 0x15 or 0x43 |
| `Verdicts.LastTurn` | Bootloader/ymodem.c:152-273 | a run that returns has returned by such a turn |
| `ReceiverSafety.RunSafe` | Bootloader/ymodem.c:152-272 | on every input and flash script: events in order, numbers 0, 1, 2, ... modulo 256, each write where the last ended and after an erase, one ACK per acknowledged event, at most MAX_ERRORS + 1 errors; a run that has accepted a header ends |
| `ReceiverFlash.FlashIsReplay` | Bootloader/ymodem.c:206-227 | on every input, for any number of files, flash that works ends up exactly as the erases and writes of the log leave it, one after the other, but for the write a driver that reads back has refused |
| `ReceiverFlash.OneFileExactly` | Bootloader/ymodem.c:206-241 | the log of a session with one header leaves the swept device with all accepted payloads, in order, programmed over it from the start address on, within the grant or beyond |
| `ReceiverFlash.FirstFileHeld` | Bootloader/ymodem.c:206-241 | if they fit the grant, flash holds exactly them, blanks in the rest of the grant's sectors, and is unchanged elsewhere |
| `ReceiverFlash.OneFileHeldIff` | Bootloader/ymodem.c:221-227 | whether they fit or not, it holds them if and only if those beyond the erased sectors lose no bits to what was there |
| `ReceiverFlash.AcknowledgedIsHeld` | Platform/MCU/STM32F4xx/peripherals/platform_flash.c:374-401 | where the driver reads back they never do: on every input with one header, flash that works holds the payloads acknowledged, wherever they lie and however the session ends |
| `ReceiverFlash.LaterHeaderSparesIff` | Bootloader/ymodem.c:206-207 | the erase for a later header spares what the session has stored if and only if it runs past the device and is refused, or that lies before the first sector it touches, or is blank from there on |
| `ReceiverFlash.GrantToTheEnd` | Platform/MCU/STM32F4xx/peripherals/platform_flash.c:113-114 | with a grant up to the end of the device, a header behind at least one stored byte erases nothing |
| `ReceiverFlash.WritesStayIff` | Bootloader/ymodem.c:201-227 | the writes of a session stay within the first grant if and only if the payloads accepted are no longer than it |
| `ReceiverFlash.NothingBelow` | Bootloader/ymodem.c:206-227 | nothing below the first sector of the start address is ever changed, however flash behaves and however many files come |
| `Overrun.SectorsBelowKept` | Platform/MCU/STM32F4xx/peripherals/platform_flash.c:414-467 | on either device, nothing below the sector of the start address, for every input and every flash behaviour |
| `ReceiverFlash.AnySession` | Bootloader/ymodem.c:145-273 | all of this for a session from its first instruction, on any bytes and any buffer contents |
| `Overrun.HeaderOpensIff` | Bootloader/ymodem.c:195-210 | a header with a 32-bit size is taken if and only if the size is at most one byte above the grant, or 2^31 or more; any other ends the session with -1 before an erase |
| `Overrun.HugeSizeTaken` | Bootloader/ymodem.c:195-199 | a size of 3000000000 is taken and its block stored, whatever the grant |
| `Overrun.BlockStoredIff` | Bootloader/ymodem.c:220-241 | the block the receiver waits for is stored and the session goes on if and only if it lies within the device and, where the driver reads back, loses no bits; otherwise -2 and nothing is acknowledged |
| `Overrun.StoresWhateverComes` | Bootloader/ymodem.c:220-241 | after a header that is let through any blocks at all are stored one behind the other, whatever size was announced, as long as the device has room and, where the driver reads back, blank cells |
| `Overrun.StayIffBlocksFit` | Bootloader/ymodem.c:201-227 | their writes stay in the grant if and only if the blocks together are no longer than it |
| `Overrun.WritesBehindTheGrant` | Bootloader/ymodem.c:201-227 | a grant of 128 bytes, a size of 129 and two blocks: the second is written right behind the grant |
| `Overrun.SecondFileWipesFirst` | Bootloader/ymodem.c:206-207 | two one-block files sent to the start of SPI flash: both are acknowledged, and the first is blank at the end |
| `Sender.DataPhaseEnds` | Bootloader/ymodem.c:478-541 | against any responder the data phase is left after at most ten sends per remaining block |
| `SenderLine.LineOfTransfer` | Bootloader/ymodem.c:412-631 | whatever is answered, the line carries the header, the blocks of the file in order and the three closing messages, none left out on the way; each packet has start byte, number, complement, payload (0x1A behind the end of the file) and a trailer that makes it a multiple of x^16 + x^12 + x^5 + 1 |
| `SenderLine.OnePacket` | Bootloader/ymodem.c:437-450 | number and payload leave no choice for any byte of such a packet |
| `SenderVerdicts.TurnIff` | Bootloader/ymodem.c:434-631 | in every phase: 0x06, and nothing else, takes the sender on, except that anything ends the wait behind the header; which answers count as a failed attempt, which turn is the last one and what it returns |
| `SenderVerdicts.Repeated` | Bootloader/ymodem.c:453-465 | while the header, or the empty header, is being sent, any other byte only makes it go out once more, and no attempt is counted |
| `SenderVerdicts.TenFailuresEnd` | Bootloader/ymodem.c:527-535 | ten failed attempts in a row, of whatever kind, end the transfer with 10 |
| `SenderVerdicts.SilenceGivesUp` | Bootloader/ymodem.c:434-631 | so does silence, in every phase but the wait behind the header and the last one |
| `YmodemTransmit.Session.SendPacket` | Bootloader/ymodem.c:396-405 | exactly the first bytes of the buffer are sent |
| `YmodemTransmit.Session.SendHeader` | Bootloader/ymodem.c:434-470 | the header loop does what the specification's run does from Announce on |
| `YmodemTransmit.Session.SendFile` | Bootloader/ymodem.c:471-541 | the data loop does what the specification's run does from the first block on, up to the block it gave up at or the end of the file |
| `YmodemTransmit.Session.SendEot` | Bootloader/ymodem.c:542-563 | the same for the end-of-transmission loop |
| `YmodemTransmit.Session.SendEmpty` | Bootloader/ymodem.c:566-608 | the same for the empty header, whose loop counts only timeouts |
| `YmodemTransmit.Session.SendLastEnd` | Bootloader/ymodem.c:610-630 | the last loop turns once, its flag being set already |
| `YmodemTransmit.Session.Transmit` | Bootloader/ymodem.c:412-631 | status and every byte sent are those of the specification's run |
| `Delivery.HeaderAccepted` | Bootloader/ymodem.c:179-210 | the header the sender makes is taken by a fresh receiver: every sector of the grant erased, size known, ACK and C answered |
| `Delivery.BlockAccepted` | Bootloader/ymodem.c:220-241 | the block the receiver expects is stored behind the ones before it, and one ACK answered |
| `Delivery.WrongNumberIgnored` | Bootloader/ymodem.c:173-176 | a packet with another number modulo 256 changes neither flash nor count and draws no ACK |
| `StopAndWaitSafety.StaleIgnored` | Bootloader/ymodem.c:173-176 | no packet of the transfer is mistaken for another one unless their numbers agree modulo 256 |
| `StopAndWaitSafety.SendsMessage` | Bootloader/ymodem.c:437-444 | the messages of the channel model are the bytes the sender really sends |
| `StopAndWaitSafety.StepKeepsInv` | Bootloader/ymodem.c:152-271 | every step of either program or channel keeps the protocol invariant |
| `StopAndWaitSafety.StopAndWaitSafe` | Bootloader/ymodem.c:478-541 | in every reachable data-phase state: s <= r <= s + 1, only packets s - 1 and s are on the way, and flash and log hold exactly blocks 1 to r - 1, once each and in order, with blanks in the rest of the grant's sectors and all else unchanged |
| `StopAndWaitSafety.LeavingMeansDelivered` | Bootloader/ymodem.c:534-563 | a sender past its data loop, or returning 0, leaves the whole padded file in flash; a receiver that returns a size returns the file's, with the file in flash |
| `StopAndWaitSafety.DeliveredMeans` | Bootloader/ymodem.c:221-241 | that is: the file, then 0x1A up to the next multiple of 128 |
| `StopAndWaitSafety.GrantFrameIff` | Platform/MCU/STM32F4xx/peripherals/platform_flash.c:259-281 | nothing outside the grant has changed if and only if what shares its sectors was blank; for whole sectors there is nothing |
| `StopAndWaitSafety.AckLossStalls` | Bootloader/ymodem.c:229-241 | losing the one acknowledgement of the current block leads to the stalled state |
| `StopAndWaitSafety.LostAckStalls` | Bootloader/ymodem.c:173-176 | from there no step ever moves the sender on or the receiver forward |
| `Stalling.MovesOnIff` | Bootloader/ymodem.c:434-541 | from any reachable state of the header or a block, some continuation gets past it if and only if the sender is running and an acknowledgement is on the way, or the receiver still waits for the packet and can still get it |
| `Stalling.TakenLeftIff` | Bootloader/ymodem.c:173-176 | once the receiver has the packet: if and only if the sender is running and an acknowledgement is on the way |
| `Stalling.StuckStays` | Bootloader/ymodem.c:434-541 | from a state without such a way no steps whatever change the phase of the sender |
| `Stalling.StallReachable` | Bootloader/ymodem.c:229-241 | for every block of every file there is a run from the start to a state where the sender is running and can never leave that block |
| `Stalling.HeaderLostReachable` | Bootloader/ymodem.c:208-210 | so there is to one where the receiver has the header, its ACK is lost and the line is clear |
| `Stalling.HeaderRound` | Bootloader/ymodem.c:453-465 | from there, with nothing lost, the header is sent, answered with NAK, and the state is the same but for the bytes sent |
| `Stalling.HeaderLoops` | Bootloader/ymodem.c:453-465 | any number of times, with no error counted |
| `Stalling.EotRecovers` | Bootloader/ymodem.c:542-563 | at the end of transmission a sender with a try left and a running receiver always get on, whatever was lost |
| `Ending.StatusZeroIff` | Bootloader/ymodem.c:566-631 | from every state of the last two loops, some continuation makes the sender return 0 if and only if `CanEnd` holds: tries to spare and an acknowledgement on the way or to be had, or, on the last try, two; the file is in flash in all of them |
| `Ending.StaysOut` | Bootloader/ymodem.c:566-631 | from a state without that no steps whatever lead to 0 |
| `Ending.ReturnedIff` | Bootloader/ymodem.c:566-608 | in the loop of the empty header, once the receiver has returned: if and only if an acknowledgement is on the way, two on the last try |
| `Ending.DeliveredButFailed` | Bootloader/ymodem.c:566-608 | from the start of any transfer there is a run that puts the file in flash, makes the receiver return its size and the sender 10 |
| `EndToEnd.RunMessage` | Bootloader/ymodem.c:156-261 | a message of the channel model does what its bytes do in the receiver's own run |
| `EndToEnd.WholeTransfer` | Bootloader/ymodem.c:412-631 | over a faultless line, for every file that fits when padded: sender returns 0, receiver the size as a signed number, flash holds the padded file and blanks in the rest of the grant's sectors and is unchanged outside them, with the block count of the formula; both runs are those of the two specifications on each other's bytes |
| `Transfer.RunBothEnds` | Bootloader/ymodem.c:145-273 | the two programs, run on each other's bytes, return 0 and the size (as a signed number), send exactly what the other reads, and leave the file in flash |
| `Transfer.SmallGrantWipes` | Platform/MCU/STM32F4xx/peripherals/platform_flash.c:327-346 | a transfer to 0x400 to 0x800 of SPI flash, or to any other range within its first sector from 0x400 on, succeeds and blanks the rest of that sector |
| `Getline.GetLine` | Bootloader/Getline.c:47-70 | for a buffer of any size: stops at the first complete line and not before; the buffer, with the cell before it and the one behind, holds the edited text with its last character replaced by NUL; the terminal shows the text; from two cells on the last one is never stored |
| `Getline.EnterEnds` | Bootloader/Getline.c:53-69 | carriage return or line feed behind ordinary characters completes the line and nothing before it does; the buffer then holds those characters and NUL |
| `Getline.FullEnds` | Bootloader/Getline.c:68-69 | so does the character that leaves one cell, and NUL takes its place |
| `Getline.KeyEffect` | Bootloader/Getline.c:53-66 | what each key does to the text: 0x08 and 0x7F take one character off, 0x11 and 0x13 do nothing, 0x0D is taken for 0x0A, any other is added |
| `Getline.ReturnIsFeed` | Bootloader/Getline.c:53 | keystrokes that differ in carriage returns and line feeds only give the same text |
| `Getline.ReturnCompletesAsFeed` | Bootloader/Getline.c:53-68 | and complete the line at the same key |
| `Getline.TextIsWhatSurvives` | Bootloader/Getline.c:54-66 | the pushes and pops leave exactly the characters no later erasing key cancels |
| `Getline.EchoErased` | Bootloader/Getline.c:58-60 | backspace, blank, backspace takes the last character off the screen |
| `Getline.TerminatorInsideIff` | Bootloader/Getline.c:68-69 | the terminator is stored inside the buffer if and only if the buffer has two cells or the first key is a character |
| `Getline.TerminatorOutside` | Bootloader/Getline.c:68-69 | with one cell and backspace, delete, ^Q or ^S as first key the line is complete and the terminator is stored before the buffer |
| `Menu.UpperCopy` | Bootloader/menu.c:82-87 | the 100-byte copy begins with the name in upper case and a terminator |
| `Menu.Compare` | Bootloader/menu.c:93-97 | stops past the whole name or at the first difference, never past the line |
| `Menu.CopyBody` | Bootloader/menu.c:103-109 | the word after the blanks, cut at the limit, is counted and stored, and no other cell |
| `Menu.FindCommandPara` | Bootloader/menu.c:77-118 | on any memory that has a NUL: -1 and a store before the buffer when no option matches, else length, text and terminator of the first match's value, or a report that the search for it runs off the memory given |
| `Menu.ReadableStays` | Bootloader/menu.c:104-109 | it does not when the last cell is a NUL other than the one that ends the option found |
| `Menu.WordUpToStop` | Bootloader/menu.c:105 | a value is what stands in memory up to the next blank, dash or NUL |
| `Menu.LineIsReadable` | Bootloader/menu.c:194-210 | in a buffer `getline` has filled the parser never reads past the last cell |
| `OptionLaws.MissingIff` | Bootloader/menu.c:88-115 | -1 exactly when no "-NAME" followed by a blank or the end stands in the line |
| `OptionLaws.OptionInCapitals` | Bootloader/menu.c:82-99 | an option stands where a dash, the name with a to z in capitals and every other character as it is, and a blank or NUL follow each other |
| `OptionLaws.CaseBlind` | Bootloader/menu.c:82-87 | two spellings of a name that differ in capitals only find the same in any line |
| `OptionLaws.OneName` | Bootloader/menu.c:93-101 | two names that match in the same place are the same name: "E" is never taken for "END" |
| `OptionLaws.RoundTrip` | Bootloader/menu.c:77-118 | every option of a line written from a command word and distinct options is found, with its value cut at the limit |
| `OptionLaws.NotWrittenNotFound` | Bootloader/menu.c:77-118 | in such a line a name is missing if and only if it was not written |
| `OptionLaws.HelpLineParsed` | Bootloader/BootloaderEntrance.c:76 | the line of the help text gives "0", "0X400" and "0X800" for dev, start and end, asked for in small letters, and nothing for e and r |
| `OptionLaws.ValueInLineIff` | Bootloader/menu.c:99-111 | for every limit, the value is the one the line alone gives if and only if a blank follows the option or a NUL or dash comes first, after blanks, behind the line |
| `OptionLaws.StaleValue` | Bootloader/menu.c:104-105 | a concrete line whose last option gets a value from the command before, for every limit |
| `Button.EasyLinkButton.IrqHandler` | Board/EMW3265/platform.c:377-394 | one press or release sets start time, timer and callbacks as the trace step does, nothing else |
| `Button.EasyLinkButton.TimeoutHandler` | Board/EMW3265/platform.c:396-401 | one expiry forgets the start time and calls back a long press |
| `Button.EasyLinkButton.Live` | Board/EMW3265/platform.c:377-401 | over any trace the handlers reach the state and make the callbacks that the trace theorems are about |
| `Button.IntervalIsTrue` | Board/EMW3265/platform.c:386 | the 32-bit difference is the true one below one turn of the clock, wrap included |
| `Button.ClickIff` | Board/EMW3265/platform.c:386-390 | a release is a click if and only if the event before it is a press more than 50 and less than 3000 ms ago whose start time is not the sentinel 0 |
| `Button.ClickLost` | Board/EMW3265/platform.c:386-390 | a concrete press and release 100 ms apart, at the wrap of the clock, that is no click |
| `Button.NeverBoth` | Board/EMW3265/platform.c:377-401 | from one press to the next there is never both a click and a long press |
| `Button.LongPressIsLong` | Board/EMW3265/platform.c:396-401 | a long press comes 3000 ms or more after a press with no release since |
| `Button.HeldLong` | Board/EMW3265/platform.c:383-391 | a button held past the time the timer is served gets its long press |
| `Button.LongPressTimes` | Board/EMW3265/platform.c:383-401 | a button held on is reported every 3000 ms, within the slack of the timer, when the timer is periodic, and once when it is not |
| `Button.LongPressIff` | Board/EMW3265/platform.c:377-401 | only an expiry calls back a long press, and a press calls nothing back |
| `Button.StoppedUntilPress` | Board/EMW3265/platform.c:391-392 | after a release no timer expires until the next press |

## Left out

- Menu.FindCommandPara: its output buffer has one cell before and one behind the caller's length, because the code stores there too; a limit of 0 goes with no buffer, as at every call. When the search runs off the memory given, what it finds there is not part of this model.
- Getline.GetLine: a keystroke stream that ends before the line is complete makes it return, where the program waits.
- YmodemReceive.Session.Receive: a line that stays silent before any header has been accepted keeps the program polling for ever; the model returns no result there.
- YmodemTransmit.Session.Transmit: the file is a value, so that a failed flash read, which the code ignores, does not occur; the file name is already in its 256-byte buffer.
- Block0.PrepareInitialPacket: takes a stack with a NUL within 769 bytes; without one the copy leaves the packet buffer, and what it overwrites there is not modelled.
- HeaderSize.SizeRecoveredIff: headers whose name and size field fit the 128 bytes sent. Behind a size of 0 more than a NUL or a blank can follow and still read as 0, so that `ShortFieldIff` is for other sizes.
- Overrun.HeaderOpensIff: grants are natural numbers. One of 2^31 - 1 bytes or more, which only `-start` and `-end` can ask for, overflows the variables it is computed and compared in; no device is that large.
- EndToEnd.WholeTransfer: sessions of one file whose padded form fits the grant. For files that do not fit, and for sessions of several files, `ReceiverFlash` and `Overrun` say what flash holds.
- StopAndWaitSafety.StopAndWaitSafe: channel faults strike whole messages; byte-level noise that makes a payload byte look like EOT or an abort is not modelled. Flash works; the receiver's theorems in `ReceiverSafety` are for any flash. Delivery under loss of acknowledgements is not claimed: it is false, see `Stalling.MovesOnIff`.
- UpdateRecovery.BootKeepsRecoverable: says what flash holds. With the bootloader as destination a torn copy leaves nothing that could boot and repair it. A power failure between the erase and the rewrite of the parameter partition loses the settings behind the record; settings are claimed only for boots that keep power.
- UpdateRecovery.OneRefusal: one refused call in a boot; for any number of them `Update.Updater.Update` gives the possible effects.
- Update.Updater.Update: takes a parameter partition of at most 16 KiB, the size of the RAM buffer: the code does not check this, and a larger one would be read over the end of that buffer. A torn erase of that partition is taken to be all or nothing, it being one sector.
- RfCopy.Copier.Boot: an erase of an empty RF partition at address 0 is taken to touch no sector, where the code's last address wraps round to the top of the device. The same code on SC3165 and SC411 is not repeated.
- Runs of a program are on finite inputs followed by silence, on which the sender's header and empty-header loops always end; that the header loop need not end otherwise is `Stalling.HeaderLoops`.
- `main`, the command chain of `Main_Menu`, `SerialDownload`, `SerialUpload` and `stdio_break_in`: dispatch, printing and a bounded loop.
- UART drivers, `printf`, GPIO, DMA, RTOS objects and the watchdog: input streams, output traces and event traces stand for them.
- The checksum branch of the sender (`CRC16_F` is always 1) and `Ymodem_CheckResponse`.
- The CRC-8 table and what it detects: the RF copy holds for any byte step.
- The embedded flash driver's own blank check beyond the outcome it may have, and its status polling. An embedded write of fewer bytes than are missing to the next word boundary, where the driver would program bytes behind the data: no caller makes one.
- Characters above 127 in `toupper`: the C locale is assumed.
- Button variants that re-arm single edges, and interrupts that interrupt each other: handlers run whole.
- Bit-field, swap and rotate macros in `include/Common.h`, board pin tables and NVRAM data.
