# Verified models of the NUCLEO-H743ZI firmware

The firmware serves files from a NOR flash chip over TFTP and FTP and has a command terminal on a
UART. This project models its five state machines and proves what they guarantee, and where they do
not, exactly when they do.

| files | part of the firmware |
|---|---|
| `TftpPackets`, `TftpWrite`, `TftpCourse`, `TftpRead` | TFTP server, in both directions, with its peer and the network |
| `NorFlash`, `PageSplit`, `QspiHardware`, `W25Q128`, `QspiBsp`, `SectorDevice` | flash stack: chip, HAL, chip driver, board driver, FatFs disk driver |
| `Commands`, `Terminal`, `TerminalSpec`, `SerialTerminal` | command terminal: conversion, parser, the line language it implements, receive ring |
| `UartTransmit` | transmit ring of the debug UART |
| `Bytes`, `Rings` | bytes, and the index arithmetic of both rings |
| `FtpConnections`, `FtpPaths`, `FtpTransfer` | FTP server: connection list, current directory, transfers |

Code that changes state is modelled as classes with loops and proved against functions on values; the
theorems are about those functions, or about the contracts of methods that run whole sequences of
operations. What the environment may do is arbitrary wherever the source does not control it: HAL calls
fail at any time (a failed call leaves the chip as it was), the chip stays busy for any time, packets are
lost, repeated, delayed and reordered, interrupts come between any two statements.

## Main results

* **TFTP write.** For data of any size and any behaviour of the network, the server's file is a prefix of
  the sender's data, unless the write request itself is processed again in mid-transfer: that opens the one
  global file object a second time, and the file is then never complete. When the server closes (or the
  sender believes it is done) the file is complete exactly if there was no such request and the data has at
  most 65535 * 512 bytes, because an `int` block number is compared with a 16-bit field. On a network that
  loses nothing, shorter data does arrive. For datagrams of any kind and length it is stated which are
  stored, what is answered and when the port closes.
* **TFTP read.** Whatever packets arrive, and however often the request is processed again, the k-th DATA
  packet carries the slice counted from the latest request, and its number is one more than the correct ACKs
  so far. Without a request in mid-transfer that is the k-th slice. The numbers are right exactly if every
  packet that arrived was the ACK due. The comment at line 306 of `tftpserver.c`, that a wrong ACK makes the
  current block go out again, is wrong: the code is followed, and the comment is refuted. With a client on an
  exactly-once channel: once the server has closed, the client has the file, and knows it, exactly if no
  request was processed between the second slice and the last one, and the file has fewer than 65536 full
  blocks. A request there opens the one global file object again: the numbers stay right, the data does not.
* **Flash.** The disk driver refines an array of sectors. Every program and erase instruction reaches the
  chip with the write-enable latch set and BUSY clear, in every run, with any failures. The status poll
  combines bytes with a logical OR and so waits for two zero bytes, not for BUSY alone. With working HAL
  calls and a chip within its timeouts, a write or erase succeeds exactly if the status register settles at
  zero; a write-enable latch left set by a program instruction that failed makes all later writes and
  erases fail, while `w25qxx_write` still reports success.
  A write that fails has programmed a first part of the data: the rounds that were completed, or one more.
* **Interface mode.** Over every run of data and mode operations, with any failures and on a chip in any
  state, an initialised driver agrees with its chip all the time exactly if no operation was a hazard: a
  change of mode while the chip is busy, or configuring SPI or mapping memory on an instance that is not
  initialised while its chip is in QPI mode. De-initialising and configuring SPI is such a run, without any
  failure. A driver that disagrees may report success, but nothing it writes reaches the chip.
* **Terminal.** For every registry and every stream of bytes ending in CR or LF, through the receive ring
  with any interleaving that keeps up, the handler calls and messages are those of a line-level language.
  A handler is called exactly if the tokens fit and convert, and values printed in a form the scanner
  reads back reach it as those values. The calls are bounded by the lines opened, on
  every input, exactly if every command whose name can be typed declares a parameter; otherwise one line
  makes two calls, or any number.
* **UART.** Bytes leave in the order written, in every statement-level interleaving. If the handler
  switches itself off between the emptiness test of `_write` and its index update, the transmitter stalls;
  it stalls in no other case. A stall lasts, whatever else happens, exactly until the call that writes the
  8001st byte that was not sent is over: the full ring then looks empty, that call switches the interrupt
  on, and the 8000 bytes before are skipped. With `_write` uninterrupted the queue drains.
* **FTP.** A service pass visits each connection once although it deletes some. The current directory
  is a stack under CWD and CDUP, from an absolute path as well, with the arguments for which it is not one
  stated exactly. A stored file equals what was sent, however it was cut, exactly if the old one was not
  longer; what RETR sends and STOR stores is the file again. A restart position is not used up: it applies
  to every later retrieval.

## Model

| member | source | states |
|---|---|---|
| `TftpPackets.DataRoundTrip` | Utilities/tftpserver/tftputils.c:26-92 | a DATA packet gives back its number cut to 16 bits and its payload, and passes for no ACK |
| `TftpPackets.AckRoundTrip` | Utilities/tftpserver/tftputils.c:97-108 | an ACK is correct for exactly one int block number, the low 16 bits of the one it was built from; none above 65535 |
| `TftpPackets.CorrectAckIff` | Utilities/tftpserver/tftputils.c:97-108 | a packet passes for the ACK of a number if and only if its second byte is 4 and the third and fourth are that number, from 0 to 65535, high byte first |
| `TftpPackets.WireBytes` | Utilities/tftpserver/tftpserver.c:172-212 | the bytes of DATA and ACK packets: 0, 3 or 0, 4, and the number with its high byte first |
| `TftpPackets.SendDataPacket` | Utilities/tftpserver/tftpserver.c:172-185 | the bytes put on the wire from the 516-byte scratch buffer are opcode, number in network order, payload |
| `TftpPackets.SendAckPacket` | Utilities/tftpserver/tftpserver.c:195-212 | the same for the 4-byte ACK |
| `TftpPackets.SetOpcode` | Utilities/tftpserver/tftputils.c:51-56 | changes the first two bytes of the buffer and nothing else |
| `TftpPackets.SetBlock` | Utilities/tftpserver/tftputils.c:79-84 | changes bytes 2 and 3, high byte first, and nothing else |
| `TftpPackets.SetDataMessage` | Utilities/tftpserver/tftputils.c:89-92 | copies the data behind the header and nothing else |
| `TftpWrite.WriteTransfer.constructor` | Utilities/tftpserver/tftpserver.c:464-502 | a write transfer starts with an empty file and block 0 |
| `TftpWrite.WriteTransfer.WrqRecvCallback` | Utilities/tftpserver/tftpserver.c:337-399 | one callback, for a datagram of any length: the packet is appended only if it is the next block, the ACK names the block reached, a short packet closes whether it was accepted or not |
| `TftpWrite.WriteTransfer.ReceiveAll` | Utilities/tftpserver/tftpserver.c:337-399 | any datagrams at all, in any order: the port is open exactly as long as none was shorter than 516 bytes, the block counts those whose number was due, the file is what those carried, each reply acknowledges the count of its moment |
| `TftpWrite.FollowedOne` | Utilities/tftpserver/tftpserver.c:349-392 | one datagram more keeps all of that |
| `TftpWrite.WriteTransfer.ProcessWriteAgain` | Utilities/tftpserver/tftpserver.c:464-502 | a request that arrives again empties the file under the transfer, whose own state stays |
| `TftpWrite.BlocksAddUp` | Utilities/tftpserver/tftpserver.c:385-398 | the blocks of a transfer tile the data and only the last one is short |
| `TftpWrite.ServerStepKeepsInv` | Utilities/tftpserver/tftpserver.c:349-383 | delivering any packet in flight to the server, old or new, keeps the system invariant |
| `TftpWrite.SenderStepKeepsInv` | Utilities/tftpserver/tftpserver.c:375-383 | delivering any ACK in flight to the lock-step sender keeps it |
| `TftpWrite.AlwaysInv` | Utilities/tftpserver/tftpserver.c:337-399 | every reachable state of server, sender and network satisfies it |
| `TftpWrite.RequestedLateIff` | Utilities/tftpserver/tftpserver.c:464-476 | the state remembers a request in mid-transfer if and only if the run had one |
| `TftpWrite.FileIsAlwaysAPrefix` | Utilities/tftpserver/tftpserver.c:337-399 | in every run the file is the data from the block reached at the latest request to the block reached now; with no request in mid-transfer that is a prefix in whole blocks, and tot_bytes counts it |
| `TftpWrite.ClosedMeansCompleteIff` | Utilities/tftpserver/tftpserver.c:351-392 | once closed, the file is complete if and only if no request of the run was processed after the first block (or there is no data) and the data has at most 65535 * 512 bytes |
| `TftpWrite.SenderDoneMeansCompleteIff` | Utilities/tftpserver/tftpserver.c:369-383 | the same condition on the run for a sender that has seen its last ACK |
| `TftpWrite.LateRequestIsFatal` | Utilities/tftpserver/tftpserver.c:464-476 | after a write request processed in mid-transfer no continuation of any kind stores the data |
| `TftpWrite.TooLongIsNeverStored` | Utilities/tftpserver/tftpserver.c:350-351 | no run stores more than that limit |
| `TftpWrite.LockstepProgress` | Utilities/tftpserver/tftpserver.c:363-383 | with every packet delivered once, k rounds store k blocks |
| `TftpWrite.GoodNetworkCompletes` | Utilities/tftpserver/tftpserver.c:385-392 | then the transfer ends, on both sides, with the whole file |
| `TftpRead.ReadTransfer.SendNextBlock` | Utilities/tftpserver/tftpserver.c:270-282 | sends the next at most 512 bytes, possibly none, under the current number |
| `TftpRead.ReadTransfer.RrqRecvCallback` | Utilities/tftpserver/tftpserver.c:293-326 | one callback, for a datagram of any length: a correct ACK advances the number, the file position advances in any case, a short last read closes |
| `TftpRead.ReadTransfer.ProcessReadAgain` | Utilities/tftpserver/tftpserver.c:410-454 | a request that arrives again leaves the file behind its first slice, which goes out from another port; the state of the transfer stays |
| `TftpCourse.CourseCounts` | Utilities/tftpserver/tftpserver.c:410-454 | the slice that goes out next is counted from the latest request |
| `TftpCourse.CourseAlways` | Utilities/tftpserver/tftpserver.c:293-326 | the slices sent are 1, 2, 3 ... as long as no request is processed in mid-transfer; a finished transfer with one has sent more slices than the file has |
| `TftpCourse.InsideIff` | Utilities/tftpserver/tftpserver.c:410-454 | the course remembers a request in mid-transfer if and only if the run had one |
| `TftpCourse.ClosesWithin` | Utilities/tftpserver/tftpserver.c:313-320 | after any run, as many packets as the file has slices close the port |
| `TftpRead.AnswerForm` | Utilities/tftpserver/tftpserver.c:310-323 | with the file at slice k a callback sends slice k + 1, or closes when the last slice was sent |
| `TftpRead.AnyPackets` | Utilities/tftpserver/tftpserver.c:293-326 | under arbitrary packets and repeated requests: which slice and number each DATA packet has, and when the port is open |
| `TftpRead.RunFollowsCourse` | Utilities/tftpserver/tftpserver.c:293-326 | the server's file position, remembered length and packets are those of the course in slice numbers |
| `TftpRead.UndisturbedIsInSequence` | Utilities/tftpserver/tftpserver.c:293-326 | as long as no request is processed in mid-transfer, the k-th packet carries the k-th slice and the port closes at callback size/512 + 1, not before |
| `TftpRead.AllAcksCorrectIff` | Utilities/tftpserver/tftputils.c:97-108 | k packets contain k correct ACKs exactly if they are ACK 1 to k in order |
| `TftpRead.NumberedRightIff` | Utilities/tftpserver/tftpserver.c:299-307 | all packets sent carry the right 16-bit number if and only if all packets that arrived in time were the ACKs due, whatever requests came between |
| `TftpRead.WrongAckDoesNotResend` | Utilities/tftpserver/tftpserver.c:304-323 | a wrong ACK before the last slice repeats the number with the slice the file stands at instead of sending the block again |
| `TftpRead.TalkAlways` | Utilities/tftpserver/tftpserver.c:410-454 | after any exchanges with a client and repeated requests among them: what each side has |
| `TftpRead.ClientGetsFileIff` | Utilities/tftpserver/tftpserver.c:270-326 | the client has the file and knows it if and only if no request was processed in mid-transfer and the file is shorter than 65536 * 512 bytes; without such a request it has the file up to that length |
| `TftpRead.FlashFilesArrive` | Utilities/tftpserver/tftpserver.c:270-326 | every file that fits the 16 MB flash arrives, in size/512 + 1 packets |
| `NorFlash.ProgramInPage` | Utilities/quadspi/w25q128fv.c:226-279 | a page program that stays in its page is a plain AND overlay |
| `NorFlash.ProgramAcrossPageWraps` | Utilities/quadspi/w25q128fv.c:233-233 | of a program that leaves its page, every byte meant for a place behind it misses that place and is ANDed into the page, counted from its beginning |
| `NorFlash.LatchIsNotForgotten` | Utilities/quadspi/w25q128fv.c:156-195 | a write-enable latch on an idle chip never clears by waiting |
| `PageSplit.CallsTile` | Utilities/quadspi/drv_qspi_w25q128.c:263-304 | the calls of a write cover the target once, in order, each of them non-empty and inside one page |
| `PageSplit.CallCount` | Utilities/quadspi/drv_qspi_w25q128.c:277-306 | there is one call for each page touched |
| `PageSplit.TilesOverlay` | Utilities/quadspi/drv_qspi_w25q128.c:289-290 | calls that tile a range inside pages have together the effect of one overlay |
| `PageSplit.PrefixEffect` | Utilities/quadspi/drv_qspi_w25q128.c:277-306 | the first j calls have ANDed exactly a first part of the data into place |
| `PageSplit.WholeEffect` | Utilities/quadspi/drv_qspi_w25q128.c:257-310 | all of them the whole data |
| `W25Q128.PollWantsZeroBytes` | Utilities/quadspi/w25q128fv.c:90-98 | with an odd mask the status test accepts if and only if two whole status bytes are zero, with an even one always |
| `W25Q128.SoftPollingCheckLoMask` | Utilities/quadspi/w25q128fv.c:54-108 | for every mask and either mode; with an odd mask, on a chip in that mode, and with working calls: success if and only if the chip settles and is not busy for longer than the polls reach; success means it is idle |
| `W25Q128.SendWriteEnable` | Utilities/quadspi/w25q128fv.c:156-195 | success means the latch of a chip in that mode is set; a busy chip, or one in the other mode, is as before |
| `W25Q128.SendPageProgram` | Utilities/quadspi/w25q128fv.c:237-279 | success means a chip in that mode got the program, and executes it if its latch was set and it was not busy; failure leaves it alone, with the latch still set |
| `W25Q128.SendBlockErase` | Utilities/quadspi/w25q128fv.c:491-547 | from any state: the aligned block around the address is erased, or nothing; the instruction may arrive without the latch, because enabling it is not checked; with working calls an idle chip is erased whatever its latch was |
| `W25Q128.SendChipErase` | Utilities/quadspi/w25q128fv.c:557-577 | from any state the whole chip is erased or nothing, and nothing without the latch |
| `QspiBsp.Bsp.WriteChunk` | Utilities/quadspi/drv_qspi_w25q128.c:281-297 | one round: poll, enable, program, poll; the program arrives at most once, with the latch set and BUSY clear |
| `QspiBsp.Bsp.WritePages` | Utilities/quadspi/drv_qspi_w25q128.c:257-310 | the page loop performs the calls of the split in order and stops at the first failure; those that reached the chip are the completed rounds, or one more after a failure |
| `QspiBsp.Bsp.Write` | Utilities/quadspi/drv_qspi_w25q128.c:257-310 | after any outcome the range holds old AND the first j chunks of the data, everything else is unchanged; all of it on success; on failure j is the number of chunks a poll saw completed, or one more; success exactly if the status settles, when nothing else is to blame; a driver that disagrees with the chip changes nothing |
| `QspiBsp.Bsp.EraseBlock` | Utilities/quadspi/drv_qspi_w25q128.c:319-341 | erases the aligned block or nothing; refused for ever once the latch is stuck; nothing on disagreement |
| `QspiBsp.Bsp.EraseChip` | Utilities/quadspi/drv_qspi_w25q128.c:347-370 | erases everything or nothing, with the same exact condition |
| `QspiBsp.Bsp.Read` | Utilities/quadspi/drv_qspi_w25q128.c:219-229 | success on an idle chip in the right mode gives the memory, and reading changes nothing |
| `QspiBsp.Bsp.RunData` | Utilities/quadspi/drv_qspi_w25q128.c:257-370 | in every run of writes and erases all memory-changing instructions arrive executable; from a status that does not settle every operation fails and memory stays |
| `QspiBsp.Bsp.ResetBoth` | Utilities/quadspi/drv_qspi_w25q128.c:732-765 | with working calls the double reset succeeds exactly if nothing is protected and the chip is in QPI mode or settles |
| `QspiBsp.Bsp.Init` | Utilities/quadspi/drv_qspi_w25q128.c:26-76 | touches only an uninitialised instance; success leaves an idle chip that agrees with the driver |
| `QspiBsp.Bsp.DeInit` | Utilities/quadspi/drv_qspi_w25q128.c:82-114 | leaves memory mapping first, and believes in SPI afterwards; succeeds if and only if no HAL call fails |
| `QspiBsp.Bsp.EnableMemoryMappedMode` | Utilities/quadspi/drv_qspi_w25q128.c:444-458 | breaks the agreement exactly for an uninitialised instance whose chip is in QPI mode |
| `QspiBsp.Bsp.DisableMemoryMappedMode` | Utilities/quadspi/drv_qspi_w25q128.c:465-500 | only from memory mapping, where it succeeds if and only if no HAL call fails; any failed step stays there |
| `QspiBsp.Bsp.ConfigFlash` | Utilities/quadspi/drv_qspi_w25q128.c:527-583 | does nothing while mapped; after success the exact condition for driver and chip to agree |
| `QspiBsp.Bsp.Run` | Utilities/quadspi/drv_qspi_w25q128.c:26-583 | over any sequence of data and mode operations with any failures, on a chip in any state, an initialised instance agrees with its chip throughout if and only if no operation was a hazard; every memory-changing instruction arrives executable; mode operations leave memory alone |
| `QspiBsp.AgreesThroughoutIff` | Utilities/quadspi/drv_qspi_w25q128.c:26-583 | what holds for each step holds for the run: agreement is lost exactly at the first hazard |
| `QspiBsp.Bsp.SpiAfterDeInit` | Utilities/quadspi/drv_qspi_w25q128.c:82-114 | a hazard without failures: in QPI mode, de-initialise and configure SPI |
| `QspiBsp.Bsp.MapAfterDeInit` | Utilities/quadspi/drv_qspi_w25q128.c:444-458 | another, after a de-initialisation whose last step failed: map memory |
| `SectorDevice.EraseThenOverlay` | Utilities/FatFs/w25qxx_diskio.c:142-145 | erasing and then ANDing stores |
| `SectorDevice.StoredSectors` | Utilities/FatFs/w25qxx_diskio.c:136-153 | storing whole sectors replaces those and no other sector |
| `SectorDevice.WriteLoopEndsIff` | Utilities/FatFs/w25qxx_diskio.c:140-140 | with its BYTE counter the loop ends after count rounds for count up to 255 and never for more |
| `SectorDevice.Disk.Initialize` | Utilities/FatFs/w25qxx_diskio.c:66-90 | although it ignores two return values, a first start on working hardware leaves a device ready to store; an error is reported only where the chip could not be asked or did not answer |
| `SectorDevice.Disk.Write` | Utilities/FatFs/w25qxx_diskio.c:136-153 | always reports success; other sectors are untouched even on failure; stores the buffer whenever nothing below is to blame and the status settles, and nothing when it does not |
| `SectorDevice.Disk.Read` | Utilities/FatFs/w25qxx_diskio.c:110-125 | fills the buffer with the sectors if the calls work and the chip is not busy; changes nothing on the medium |
| `SectorDevice.Disk.WriteThenRead` | Utilities/FatFs/w25qxx_diskio.c:110-153 | what is written is what is read, and all other sectors are the same |
| `Commands.Lookup` | Utilities/cmd_trmnl/cmd_process.c:50-62 | the first registered command of that name, and none only if there is none |
| `Commands.NumParams` | Utilities/cmd_trmnl/cmd_process.c:69-83 | the number of types before the first VR_NONE |
| `Commands.TypeBounds` | Utilities/cmd_trmnl/cmd_process.c:121-186 | the constants of the source are the ranges of the types by width and sign |
| `Commands.ConvertedIff` | Utilities/cmd_trmnl/cmd_process.c:109-223 | a text converts if and only if it stands for a value of its type, with the ranges written out, and to exactly that value; an overflow is a number scanned and out of range, or more than one character |
| `Commands.CommandTable.Add` | Utilities/cmd_trmnl/cmd_process.c:500-514 | appends, or on a null pointer or a full table claims that all 20 entries are in use |
| `Commands.CommandTable.AddAll` | Utilities/cmd_trmnl/cmd_process.c:500-514 | after any registrations the scan meets no null entry if and only if none of the first 20 was null; the terminal then runs on those, in order |
| `Terminal.CommandTerminal.constructor` | Utilities/cmd_trmnl/cmd_process.c:26-43 | the power-up state looks for a command, among those the table holds |
| `Terminal.CommandTerminal.ScanCmd` | Utilities/cmd_trmnl/cmd_process.c:50-62 | the loop over C strings finds the first command of that name |
| `Terminal.CommandTerminal.GetNumCmdParam` | Utilities/cmd_trmnl/cmd_process.c:69-83 | counts the declared parameters |
| `Terminal.CommandTerminal.GetParametrCmd` | Utilities/cmd_trmnl/cmd_process.c:95-223 | on the buffer: an empty token is the default; any other one succeeds if and only if it stands for a value of the type, and stores exactly that; which of the two errors it is otherwise; a failure keeps the old value |
| `Terminal.CommandTerminal.ProcParametr` | Utilities/cmd_trmnl/cmd_process.c:230-241 | converts the current token into the current parameter and no other |
| `Terminal.CommandTerminal.PresetCmd` | Utilities/cmd_trmnl/cmd_process.c:248-256 | sets every default flag, keeps stale values |
| `Terminal.CommandTerminal.CommandProcessing` | Utilities/cmd_trmnl/cmd_process.c:263-294 | called in STAT_NORM only with a registered command; one event each time |
| `Terminal.CommandTerminal.TerminalDataProcessing` | Utilities/cmd_trmnl/cmd_process.c:301-467 | keeps every index inside its array and implements the parser step on values |
| `TerminalSpec.CollectsText` | Utilities/cmd_trmnl/cmd_process.c:380-385 | of a name or token of any length the first 29 characters are kept |
| `TerminalSpec.ParsesTokens` | Utilities/cmd_trmnl/cmd_process.c:389-462 | from a parameter position to the line end the parser does what the remaining tokens mean |
| `TerminalSpec.ParsesLine` | Utilities/cmd_trmnl/cmd_process.c:314-387 | from inside a name to the line end it does what the line means |
| `TerminalSpec.StreamParses` | Utilities/cmd_trmnl/cmd_process.c:301-467 | on every stream that leaves no line open the parser's events and parameters are those of the line language |
| `TerminalSpec.LineByLine` | Utilities/cmd_trmnl/cmd_process.c:310-467 | from any idle state a line is what lies between '>' and the first CR, LF or '>', which last one also begins the next line; what comes before '>' is ignored |
| `TerminalSpec.TokensCallIff` | Utilities/cmd_trmnl/cmd_process.c:416-434 | a handler is called if and only if the tokens, at most five, convert; which values it sees |
| `TerminalSpec.LineHasOneEvent` | Utilities/cmd_trmnl/cmd_process.c:354-361 | a line for a command with parameters has exactly one event |
| `TerminalSpec.ArgsCallIff` | Utilities/cmd_trmnl/cmd_process.c:389-462 | it is a call if and only if no more tokens than parameters are given (or five are declared) and they convert; supplied values are those of the first 29 characters, all other parameters have the default flag |
| `TerminalSpec.CommandLine` | Utilities/cmd_trmnl/cmd_process.c:301-467 | from the bytes '>' name blank args CR to the handler: one event, a call if and only if the tokens are acceptable; each parameter supplied has the value the first 29 characters of its token stand for, every other one is the default |
| `TerminalSpec.PrintedLine` | Utilities/cmd_trmnl/cmd_process.c:95-467 | round trip: values printed in a form the scanner reads back, with any blanks between them, reach the handler as those values |
| `TerminalSpec.NameLine` | Utilities/cmd_trmnl/cmd_process.c:314-387 | an unknown name is reported as incorrect, once, whatever follows; a registered one with nothing behind it is one call with all defaults |
| `TerminalSpec.RefusedLine` | Utilities/cmd_trmnl/cmd_process.c:263-294 | tokens that are not acceptable are reported once, by what is wrong with the first bad one |
| `TerminalSpec.CallBound` | Utilities/cmd_trmnl/cmd_process.c:301-467 | if every command that can be typed declares a parameter, calls never exceed the '>' bytes consumed, at any moment |
| `TerminalSpec.CallsBoundedIff` | Utilities/cmd_trmnl/cmd_process.c:301-467 | the bound holds for every input if and only if every command that can be typed declares a parameter |
| `TerminalSpec.BareCommandCalledTwice` | Utilities/cmd_trmnl/cmd_process.c:362-368 | otherwise a stream with one opening and two calls |
| `TerminalSpec.BlanksRepeatCall` | Utilities/cmd_trmnl/cmd_process.c:362-368 | a command without parameters and k blanks behind it is called k + 1 times |
| `SerialTerminal.StepInOrder` | Utilities/uart_dbg/uart_dbg.c:125-139 | every interrupt and every half of a poll step keeps the bytes in order |
| `SerialTerminal.TerminalMeansItsLines` | Utilities/cmd_trmnl/cmd_process.c:478-492 | end to end: for every interleaving with fewer than 50 bytes unread, handlers and messages are those the line language gives to the bytes received |
| `SerialTerminal.TypedLine` | Utilities/cmd_trmnl/cmd_process.c:478-492 | the same through the receive ring, in every interleaving that keeps up |
| `SerialTerminal.TerminalFollowsParser` | Utilities/cmd_trmnl/cmd_process.c:478-492 | at any moment the parser is where the first bytes received lead |
| `SerialTerminal.AlwaysCounted` | Utilities/uart_dbg/uart_dbg.c:125-139 | in every run, overrun or not, the indices are the bytes received and taken modulo 50, and no byte is taken that was not received |
| `SerialTerminal.FullLooksEmptyIff` | Utilities/cmd_trmnl/cmd_process.c:480-480 | in every run, overrun or not, the poll finds nothing to do if and only if the number of unread bytes is a multiple of 50 |
| `SerialTerminal.ReceiveRing.ReceiveInterrupt` | Utilities/uart_dbg/uart_dbg.c:125-139 | stores the byte and wraps the index |
| `SerialTerminal.ReceiveRing.TerminalCntrl` | Utilities/cmd_trmnl/cmd_process.c:478-492 | ends with everything received processed, in order |
| `UartTransmit.FifoStep` | Utilities/uart_dbg/uart_dbg.c:143-168 | every single statement of `_write` and every interrupt keeps the ring in order |
| `UartTransmit.SentThenQueued` | Utilities/uart_dbg/printf_dbg.c:37-82 | in every interleaving with fewer than 8000 bytes queued, sent followed by queued is what was written |
| `UartTransmit.StalledIff` | Utilities/uart_dbg/printf_dbg.c:41-60 | the transmitter is stalled if and only if some interrupt switched itself off between the test and the index update of a `_write` |
| `UartTransmit.StallLastsIff` | Utilities/uart_dbg/printf_dbg.c:37-82 | from a stall on, whatever is written and whatever interrupts come, nothing is sent and the interrupt stays off until, and only until, the `_write` of the 8001st byte not sent is over |
| `UartTransmit.StallSkipsRing` | Utilities/uart_dbg/printf_dbg.c:41-60 | the next byte sent is that one; the 8000 before it are skipped |
| `UartTransmit.RefillRevivesIff` | Utilities/uart_dbg/printf_dbg.c:37-82 | uninterrupted calls end a stall if and only if they and the bytes queued are more than 8000 |
| `UartTransmit.StallIsReachable` | Utilities/uart_dbg/printf_dbg.c:41-79 | a run of two bytes that does it |
| `UartTransmit.WholeWriteKeepsLive` | Utilities/uart_dbg/printf_dbg.c:37-82 | an uninterrupted `_write` leaves a non-empty queue with its interrupt on |
| `UartTransmit.InterruptsDrain` | Utilities/uart_dbg/uart_dbg.c:143-168 | as many interrupts as bytes queued send them all, the next one switches off |
| `UartTransmit.TransmitRing.Write` | Utilities/uart_dbg/printf_dbg.c:37-82 | takes one byte, in either branch what the statement-level model does |
| `UartTransmit.TransmitRing.TransmitInterrupt` | Utilities/uart_dbg/uart_dbg.c:143-168 | sends the oldest byte or switches itself off |
| `FtpConnections.Server.AllocNewConn` | Utilities/ftpserver/ftpd.c:26-36 | the new connection becomes the first |
| `FtpConnections.Server.WatchAll` | Utilities/ftpserver/ftpd.c:113-123 | all live descriptors are added, none is removed, the bound for select is exact |
| `FtpConnections.Server.DestroyConn` | Utilities/ftpserver/ftpd.c:41-58 | the walk ends and exactly the argument leaves the list |
| `FtpConnections.Server.ServicePass` | Utilities/ftpserver/ftpd.c:152-180 | visits every connection present at the start once, in order; closes exactly the right ones; survivors keep their order |
| `FtpConnections.WatchedSetExactIff` | Utilities/ftpserver/ftpd.c:162-174 | the watched set stays exact if and only if no connection was closed by its handler, as QUIT does |
| `FtpPaths.ChangeIsStackStep` | Utilities/ftpserver/cmds.c:221-266 | CWD with a single name is a push, CDUP a pop; any other command with a path leaves the stack alone, or pops it if the path begins with two dots |
| `FtpPaths.DirectoryIsStack` | Utilities/ftpserver/ftpd.c:417-435 | any sequence of these commands leaves the string that the stack stands for |
| `FtpPaths.FitsAllIff` | Utilities/ftpserver/ftpd.c:417-435 | a sequence passes through the 256-byte buffer if and only if the names on the stack are short enough at every command |
| `FtpPaths.UpsDropNames` | Utilities/ftpserver/ftpd.c:425-435 | m times CDUP drops the last m names |
| `FtpPaths.RootIsReachedIff` | Utilities/ftpserver/cmds.c:221-244 | from any path, m times CDUP is the root if and only if m is more than the inner slashes, or as many for a path that begins with two slashes |
| `FtpPaths.CwdPushesIff` | Utilities/ftpserver/cmds.c:250-266 | CWD with any argument at all is a push if and only if it is given at the root, or is neither absolute nor begins with two dots |
| `FtpPaths.DotsPopIff` | Utilities/ftpserver/cmds.c:254-260 | an argument beginning with two dots, whatever follows, is a CDUP if and only if it is not given at the root |
| `FtpPaths.CwdIsUpIff` | Utilities/ftpserver/cmds.c:254-260 | away from the root no other relative argument is a CDUP |
| `FtpPaths.AbsoluteIsTaken` | Utilities/ftpserver/cmds.c:252-253 | CWD with an absolute argument goes exactly there from anywhere, and naming one changes nothing |
| `FtpPaths.RootForgets` | Utilities/ftpserver/ftpd.c:417-435 | whatever was before, CWD / and any commands behind it give what those give from the empty stack |
| `FtpPaths.AbsoluteIsStack` | Utilities/ftpserver/ftpd.c:417-435 | after an absolute CWD any commands lead to the names the stack gives, with a slash in front as long as the root has not been passed |
| `FtpPaths.StepDownCuts` | Utilities/ftpserver/cmds.c:221-244 | CDUP takes the last name and its slash away, or leaves the root |
| `FtpPaths.DoStepDown` | Utilities/ftpserver/cmds.c:221-244 | cuts the C string in place at its last slash past the first character, or makes it the root |
| `FtpPaths.Connection.DoFullPath` | Utilities/ftpserver/cmds.c:250-266 | the resulting path, and the current directory that two leading dots change as well; an absolute path is taken as it is |
| `FtpPaths.Connection.ChangeDir` | Utilities/ftpserver/ftpd.c:417-422 | the CWD case on the buffers; an absolute argument is the new directory |
| `FtpPaths.Connection.ChangeUp` | Utilities/ftpserver/ftpd.c:425-435 | the CDUP case on the buffers |
| `FtpPaths.Connection.Serve` | Utilities/ftpserver/ftpd.c:307-435 | any sequence of commands that fits the buffer, on the buffers, gives the directory of the sequence on strings; behind CWD / that of the stack |
| `FtpTransfer.Session.Stor` | Utilities/ftpserver/ftpd.c:354-388 | the new data overlays the old file, however it was cut into pieces; "finished" exactly on a closed data connection; the file stays open exactly on a timeout |
| `FtpTransfer.CutsDoNotMatter` | Utilities/ftpserver/ftpd.c:369-386 | data cut at any places and followed by the end of the connection is received as that data, whatever would come behind |
| `FtpTransfer.StoredIsSentIff` | Utilities/ftpserver/ftpd.c:358-358 | the stored file is what was sent if and only if it is at least as long as the old one; otherwise the rest of the old file is still behind it |
| `FtpTransfer.Session.Retr` | Utilities/ftpserver/ftpd.c:307-350 | what the pieces carry, put behind the part of the file in front of the restart offset, is the file, or it is the file if the offset does not lie strictly inside; the offset stays |
| `FtpTransfer.PieceAt` | Utilities/ftpserver/ftpd.c:336-345 | the i-th piece is the i-th 4096 bytes of what is sent |
| `FtpTransfer.Session.SendBack` | Utilities/ftpserver/ftpd.c:307-388 | round trip: what RETR sends, stored into a new file, is the file again, or its end from the restart offset |
| `FtpTransfer.Session.Serve` | Utilities/ftpserver/ftpd.c:307-388 | over any sequence of REST, RETR and STOR: each sends, or leaves in the file, what the restart offset of the moment gives |
| `FtpTransfer.LatestRestartDecides` | Utilities/ftpserver/ftpd.c:489-494 | the offset of a retrieval is the latest non-negative REST, however many transfers came between, or 0 after a retrieval of something that is no file |
| `FtpTransfer.RetrievalResumes` | Utilities/ftpserver/ftpd.c:326-345 | a retrieval at any offset sends the rest of the file behind it, or all if the offset does not lie strictly inside |
| `FtpTransfer.NoRestartKeepsOffset` | Utilities/ftpserver/ftpd.c:307-388 | no other request, transfer or negative REST changes the offset |
| `FtpTransfer.RestartAppliesTwice` | Utilities/ftpserver/ftpd.c:326-331 | behind one REST, a second retrieval sends the same as the first: the rest of the file behind the position, or all of it |

## Left out

* TFTP requests on port 69, file names, error packets, memory exhaustion, failed file writes and chained
  buffers. A repeated request names the same file, and the peer ignores the port it opens; mounting on every
  request drops FatFs's file locks, so opening the file again succeeds. Transfers of other files at the same
  time, which share the file objects, and their mounting and unmounting.
* TFTP timeouts: the server has none; a sender's retransmission is a repeated delivery in the model.
* The clock behind the timeouts: the chip's busy time is counted in status samples, and a chip that is
  "prompt" finishes within the samples the driver's timeouts allow.
* Block protection itself: a chip with protection bits set is never programmed, because the poll refuses it.
* `W25Q128FV_ResetEnable` is an instruction without effect in the chip model; the source always sends it
  directly before the reset. A program instruction and its data count as one HAL step, with two places to fail.
* `W25Q128FV_BlockErase` with the whole-chip size, suspend and resume, deep power-down, DMA and
  memory-mapped reads.
* `w25qxx_ioctl`, `w25qxx_status`, the diskio glue and FatFs itself.
* Handlers of terminal commands: a call is recorded with the parameters it sees. The help handler calls
  `scan_cmd`, which only sets a status that is set again before it is used.
* `sscanf`: a parameter of the model, a partial function from token to value.
* The union in a parameter is tagged with the member written last; reading another member is not modelled.
* UART overruns, framing errors and the setup of the peripheral. Two tasks in `_write` at once.
* FTP: PORT, PASV, USER, PASS, LIST and the file system commands; sockets and files deliver byte sequences.
- `SectorDevice.Disk.Write`: requires at most 255 sectors, because for more the loop does not end (`WriteLoopEndsIff`).
- `QspiBsp.Bsp.Write`: requires a positive size, because a data phase of 0 bytes is not defined by the HAL.
- `W25Q128.SoftPollingCheckLoMask`: requires a positive check time (or no timeout), because with 0 the loop need not end; no caller passes it.
- `FtpPaths.Connection.DoFullPath`: does not model paths longer than the target buffer, because the source does not look at the size it is given.
- `TftpWrite.WriteTransfer.WrqRecvCallback`: does not say what lies behind a datagram of fewer than 4 bytes, from which the source then takes the number; the bytes there are a parameter.
- `UartTransmit.SentThenQueued`: says nothing about 8000 or more queued bytes, because the ring then looks empty and starts over; after a stall `StallLastsIff` and `StallSkipsRing` do.
- `SerialTerminal.TerminalMeansItsLines`: says nothing about 50 or more unread bytes, because the ring then overwrites bytes that were not read.
