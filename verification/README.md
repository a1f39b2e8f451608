# Power monitor: verified model

A Dafny model of the power monitor's firmware and of the daemon it reports to, with proofs
of what they are for. `dafny verify dfyconfig.toml` checks everything.

**Settings storage.** The firmware keeps calibration constants in an emulated EEPROM: a
write-back, least-recently-used page cache in front of a DataFlash chip.
`Chip.dfy` is the chip (memories, and the serial state machine that decodes the bytes
shifted in, with a busy time of any finite length after every job). `DataFlash.dfy` is the
driver, byte frame by byte frame; each call is proved to leave the whole device exactly as
its name promises, including that no command is ever started while a job runs.
`CacheModel.dfy` says as functions what the cache does, and `Eeprom.dfy` is the cache as
the firmware runs it: slot objects updated in place, talking to the driver. Every method of
the class is proved to do what the functions say, down to the chip's memories. On the
functions rest the results: over every run the cache is a flat byte array
(`CacheRuns.dfy`, with the steps in `CacheRefinement.dfy`, `FlatMemory.dfy` and
`CacheSteps.dfy`); it is exactly least-recently-used (`CacheLru.dfy`); words, byte runs and
strings come back (`CacheBytes.dfy`); settings survive a restart (`Settings.dfy`); and the
main loop writes everything back on a fixed schedule (`Heartbeat.dfy`, `MainLoop.dfy`).

**Serial link.** `UartBuffer.dfy` has the two byte rings, `LineAssembler.dfy` and
`Firmware.dfy` the firmware's line assembler, command lookup and voltage reply,
`CmdParse.dfy` and `PMon.dfy` the daemon's in-place framer and its readings, and
`PollCycle.dfy` the whole cycle from request to stored readings. `Usart.dfy` is the baud
rate divider used at start-up.

Places where the code does not do what it seems meant to do are modelled as written, with
the exact condition under which it does:

- A signed offset of -1 is stored as four 0xFF bytes and reads back as the default, +1
  (`Settings.OffsetSurvivesUnlessMinusOne`); a calibration of 0xFFFFFFFF likewise.
- The transmit ring accepts no byte behind exactly one pending byte, except where its out
  index is 255, and forgets all 256 when one is put behind 255
  (`UartBuffer.SecondByteIsDropped`, `UartBuffer.TxLosslessExactly`).
- The receive ring forgets 256 bytes when one arrives behind 255 unread ones
  (`UartBuffer.RxLosslessExactly`).
- A string with a 0xFF character is cut there on reading (`CacheBytes.StringRoundTrip`).
- A string that ends before the limit is terminated twice by the reader
  (`Eeprom.Eeprom.ReadString`).
- Page numbers are cut to 16 bits, so addresses repeat after 2^25 bytes
  (`FlatMemory.AliasesExactly`).
- The eight-fold oversampling bit is set but never cleared
  (`Usart.Usart.SetAsyncBaudrate`); the caller's reset makes up for it
  (`Usart.Usart.InitRs232`).
- A setting whose 32-bit product or sum wraps can be accepted with a divider far from the
  nearest (`Usart.NearestExactly`, `Usart.WrappedSettingIsAccepted`).
- A line of 256 characters makes the assembler write its terminator one place past its
  buffer (`LineAssembler.ShortLinesComeWhole` says which input is safe); that byte is
  modelled as one more cell.
- The daemon's drain loop stops at the first line its table does not answer, such as the
  version line it asks for at start-up, and leaves the lines behind it for the next read
  (`PMon.DrainsExactly`, `PMon.VersionStopsTheDrain`,
  `PollCycle.RepliesWaitBehindTheVersion`).

Assumptions: the token's pages lie on the chip, the cache has at least one slot and
allocation succeeds; a driver call stays within a 528-byte page; each ring operation and each
interrupt is one atomic step; `volt` handlers see fixed readings during one turn of the main loop. The two
operands of the or in `EE_Read2` and `EE_Read4` are evaluated left to right. `char` on the
firmware side is unsigned, and a `char` outside ASCII is never a blank.

## Model

| member | source | states |
|---|---|---|
| `DataFlash.AddressFields` | firmware/PowerMon/src/DataFlash.c:156-158 | shifting, or-ing and truncating page and offset gives the two bit fields of the address bytes |
| `DataFlash.HeaderDecodes` | firmware/PowerMon/src/DataFlash.c:139-158 | for every page on the chip and offset below 1024 the chip's decoder gets back the page and offset that were packed |
| `DataFlash.IsFlashReady` | firmware/PowerMon/src/DataFlash.c:106-115 | a status poll changes nothing but time, answers ready only when no job runs, and otherwise a job has come nearer its end |
| `DataFlash.WaitReady` | firmware/PowerMon/src/DataFlash.c:150-151 | the polling loop ends for every finite busy time, with the device otherwise unchanged |
| `DataFlash.ReadPageDirect` | firmware/PowerMon/src/DataFlash.c:139-170 | dest holds the requested stretch of the page, or is untouched for an out-of-range page; no memory changes and no command starts during a job |
| `DataFlash.ReadFlashToBuffer` | firmware/PowerMon/src/DataFlash.c:173-193 | exactly the chosen buffer becomes the page and a job starts; nothing for an out-of-range page |
| `DataFlash.WriteBufferToFlash` | firmware/PowerMon/src/DataFlash.c:196-216 | exactly the chosen page becomes the buffer, one more wear cycle, a job starts; nothing for an out-of-range page |
| `DataFlash.BufferRead` | firmware/PowerMon/src/DataFlash.c:219-246 | dest holds the requested stretch of the buffer; nothing for an out-of-range page |
| `DataFlash.BufferWrite` | firmware/PowerMon/src/DataFlash.c:249-276 | exactly the given stretch of the buffer is replaced; nothing for an out-of-range page |
| `CacheModel.CheckCleansOne` | firmware/PowerMon/src/eeprom.c:118-133 | a background check leaves one dirty slot fewer, or none if there was none |
| `CacheRefinement.WriteBackEffect` | firmware/PowerMon/src/eeprom.c:126-127 | a slot written back goes through buffer 2 and puts its 512 bytes on its own page only; sentinel and out-of-range tags leave the chip as it was |
| `CacheRefinement.EvictionOrderIsIrrelevant` | firmware/PowerMon/src/eeprom.c:85-104 | parking the victim in buffer 2, reading, then programming ends in the same state as programming first and reading then |
| `CacheRefinement.FillShowsNothing` | firmware/PowerMon/src/eeprom.c:62-105 | a request for any page keeps the cache invariant and changes no byte of any in-range page |
| `CacheRefinement.FillDeliversPage` | firmware/PowerMon/src/eeprom.c:62-105 | the slot handed out for an in-range page holds what a client sees there |
| `CacheRefinement.FreshIsUsable` | firmware/PowerMon/src/eeprom.c:109-115 | slots full of 0xFF satisfy the invariant and show the flash unchanged |
| `FlatMemory.AliasesExactly` | firmware/PowerMon/src/eeprom.c:148-149 | two addresses name the same byte exactly when they agree modulo 2^25 |
| `FlatMemory.ReadsFlat` | firmware/PowerMon/src/eeprom.c:144-150 | an in-range read returns the flat array's byte; no read changes the array |
| `FlatMemory.WritesFlat` | firmware/PowerMon/src/eeprom.c:219-231 | a write changes exactly the addressed byte of the flat array, nothing when out of range |
| `FlatMemory.ChecksFlat` | firmware/PowerMon/src/eeprom.c:118-133 | a background check keeps the invariant and the flat array |
| `FlatMemory.FlushesFlat` | firmware/PowerMon/src/eeprom.c:136-140 | a flush terminates with no slot dirty, the array unchanged and all of it in flash |
| `CacheSteps.StepRefinesFlatStep` | firmware/PowerMon/src/eeprom.c:62-150 | every operation keeps the invariant and does to the array what it would do to a flat array |
| `CacheSteps.StepAccounts` | firmware/PowerMon/src/eeprom.c:85-133 | one operation leaves a page's flash copy alone or makes it what the page showed before, and adds a program to what is owed only for a changing write |
| `CacheSteps.StepStaysInside` | firmware/PowerMon/src/DataFlash.c:133-136 | no operation touches a chip page outside the token's share |
| `CacheRuns.RunRefinesFlatArray` | firmware/PowerMon/src/eeprom.c:62-150 | in every run from a state satisfying the invariant, cache and flash together are the flat array after the same run |
| `CacheRuns.OutputsAreTheFlatArrays` | firmware/PowerMon/src/eeprom.c:144-150 | the bytes returned by a whole run with in-range reads are those of the flat array |
| `CacheRuns.FlatRunRemembersLastWrite` | firmware/PowerMon/src/eeprom.c:219-231 | the flat array holds at each place the byte last written there |
| `CacheRuns.ReadReturnsLastWrite` | firmware/PowerMon/src/eeprom.c:109-150 | from start-up, after any run, an in-range read returns the byte last written there or the initial flash byte |
| `CacheRuns.OutOfRangeIsIsolated` | firmware/PowerMon/src/DataFlash.c:133-148 | leaving out every access to out-of-range pages changes no in-range byte of any run |
| `CacheRuns.FlashPageIsASnapshot` | firmware/PowerMon/src/eeprom.c:85-133 | after any run each in-range flash page is the array's page as it was at one moment of the run |
| `CacheRuns.ProgramsAtMostChangingWrites` | firmware/PowerMon/src/eeprom.c:95-103 | over any run a page is programmed at most once per write that changed one of its bytes; start-up's dirty sentinels cost nothing |
| `CacheRuns.OutsidePagesUntouched` | firmware/PowerMon/src/DataFlash.c:202-204 | over any run chip pages outside the token keep all bytes and their wear |
| `CacheLru.RunKeepsLru` | firmware/PowerMon/src/eeprom.c:31-38 | in every run an age is the number of requests since the slot's page was last requested, saturated at 32767, and all more recently requested pages are resident and younger |
| `CacheLru.RecentStaysResident` | firmware/PowerMon/src/eeprom.c:71-104 | a page requested fewer than 32767 requests ago with fewer distinct others since than slots is still cached, at exactly that age |
| `CacheLru.ResidentExactlyWhenRecent` | firmware/PowerMon/src/eeprom.c:67-104 | and conversely: within that horizon a page is cached if and only if fewer distinct pages than slots were requested since |
| `CacheBytes.WritesCoverExactly` | firmware/PowerMon/src/eeprom.c:247-252 | a run of writes sets exactly the bytes it covers, across pages, wrap-around and range ends, and no other |
| `CacheBytes.ReadsShowFlat` | firmware/PowerMon/src/eeprom.c:165-170 | a run of reads shows the flat array and changes nothing in it |
| `CacheBytes.BytesRoundTrip` | firmware/PowerMon/src/eeprom.c:165-170 | what a run of writes put down in range is what a run of reads returns, with any number of slots |
| `CacheBytes.Word2RoundTrip` | firmware/PowerMon/src/eeprom.c:233-237 | a 16-bit word written in range reads back as itself |
| `CacheBytes.Word4RoundTrip` | firmware/PowerMon/src/eeprom.c:240-244 | a 32-bit word written in range reads back as itself |
| `CacheBytes.StringRoundTrip` | firmware/PowerMon/src/eeprom.c:197-260 | a bounded string write and read give back the first min(length, n) characters if and only if none of them is 0xFF |
| `Eeprom.Eeprom.constructor` | firmware/PowerMon/src/eeprom.c:109-115 | start-up: n slots in front of the token's pages, each with tag 0xFFFF, dirty, age 0x7FFF and 512 bytes of 0xFF, as memset leaves it |
| `Eeprom.Eeprom.AgeCache` | firmware/PowerMon/src/eeprom.c:31-38 | every slot's age goes up by one, saturating; nothing else changes |
| `Eeprom.Eeprom.Scan` | firmware/PowerMon/src/eeprom.c:71-84 | the scan finds the first slot with the tag, else the first slot no other is older than |
| `Eeprom.Eeprom.ExtCacheFill` | firmware/PowerMon/src/eeprom.c:62-105 | slots and chip end as the model's request leaves them, and the slot handed out is the one the model names |
| `Eeprom.Eeprom.CacheCheck` | firmware/PowerMon/src/eeprom.c:118-133 | the first dirty slot is written back and marked clean; true exactly when there was one |
| `Eeprom.Eeprom.CacheFlush` | firmware/PowerMon/src/eeprom.c:136-140 | the loop terminates in the model's flushed state |
| `Eeprom.Eeprom.Read1` | firmware/PowerMon/src/eeprom.c:144-150 | returns the byte of the slot the request delivers |
| `Eeprom.Eeprom.Read2` | firmware/PowerMon/src/eeprom.c:153-156 | the two bytes of the word, low first, are the two bytes a run of reads returns |
| `Eeprom.Eeprom.Read4` | firmware/PowerMon/src/eeprom.c:159-162 | the four bytes of the word, low first, are the four bytes a run of reads returns |
| `Eeprom.Eeprom.Read` | firmware/PowerMon/src/eeprom.c:165-170 | exactly the first size bytes of the buffer become the bytes read |
| `Eeprom.Eeprom.Read4Default` | firmware/PowerMon/src/eeprom.c:189-194 | four erased bytes read as the default, anything else as itself |
| `Eeprom.Eeprom.ReadString` | firmware/PowerMon/src/eeprom.c:197-215 | returns the length of the string up to a 0x00 or 0xFF byte or the limit, with dest holding exactly it and its one or two terminators and nothing else changed |
| `Eeprom.Eeprom.Write1` | firmware/PowerMon/src/eeprom.c:219-231 | the byte is stored and the slot marked dirty exactly when it differs |
| `Eeprom.Eeprom.Write4` | firmware/PowerMon/src/eeprom.c:240-244 | leaves the state of writing the word's four bytes, low first, at consecutive addresses |
| `Eeprom.Eeprom.Write` | firmware/PowerMon/src/eeprom.c:247-252 | leaves the state of writing the buffer's first size bytes at consecutive addresses |
| `Eeprom.Eeprom.WriteString` | firmware/PowerMon/src/eeprom.c:255-260 | writes the string with its terminator if that fits in size, else its first size characters |
| `Settings.RestartKeepsArray` | firmware/PowerMon/src/eeprom.c:109-140 | flush and restart, with any number of slots, lose no byte of the array |
| `Settings.FieldsLieApart` | firmware/PowerMon/src/config/conf_eeprom.h:16-19 | the four fields, told apart by kind and by channel 1 or not, have disjoint four-byte stretches of the first page |
| `Settings.SettingsSurviveRestart` | firmware/PowerMon/src/main.c:150-200 | a field written, flushed and read after a restart is the value written, or for 0xFFFFFFFF the default 856 or 1; a field of another kind or another channel reads as before |
| `Settings.FieldInFlash` | firmware/PowerMon/src/config/conf_eeprom.h:16-19 | after a flush the chip holds the field low byte first at its place on the token's first page: 2, 6, 10 or 14 |
| `Settings.ErasedReadsDefaults` | firmware/PowerMon/src/main.c:150-194 | on erased flash the calibrations read 856 and the offsets 1 |
| `Settings.OffsetSurvivesUnlessMinusOne` | firmware/PowerMon/src/main.c:191-200 | a signed offset comes back as written if and only if it is not -1, which reads as +1 |
| `Settings.ReadVoltOffset` | firmware/PowerMon/src/main.c:191-194 | the signed value of the channel's stored offset or default |
| `Settings.WriteVoltCalibration` | firmware/PowerMon/src/main.c:156-159 | the channel's calibration field, which FieldInFlash locates, is written and no other |
| `Settings.ReadVoltCalibration` | firmware/PowerMon/src/main.c:150-153 | the channel's stored calibration or its default |
| `Settings.WriteVoltOffset` | firmware/PowerMon/src/main.c:197-200 | the channel's offset field is written with the 32-bit pattern of the signed value |
| `MainLoop.ScheduleIsExact` | firmware/PowerMon/src/main.c:322-334 | under any interleaving of ticks, turns and EEPROM accesses by commands: checks are processed ticks divided by ten, one-second services by a thousand |
| `MainLoop.DirtyIsBounded` | firmware/PowerMon/src/main.c:156-228 | with the calib and offset commands writing at any moment, dirty slots plus cleaning checks never exceed the slots dirty at first plus the writes that changed a byte |
| `MainLoop.AllCleanAfterTenTicksEach` | firmware/PowerMon/src/main.c:329-331 | D dirty slots are clean once 10 D ticks have been processed after the last access |
| `MainLoop.LoopRefinesAccesses` | firmware/PowerMon/src/main.c:322-334 | what a client sees after any run of the loop is what its accesses alone do to a flat array: the clock's write-backs are invisible |
| `MainLoop.FlashCatchesUp` | firmware/PowerMon/src/main.c:322-331 | whatever ticks, turns and accesses came first, flash holds exactly what the accesses made of the array once ten ticks per dirty slot - or per slot of the cache - have been processed after the last access |
| `MainLoop.TicksAccounted` | firmware/PowerMon/src/Heartbeat.c:16-37 | every tick is processed or pending but for 256 lost at each wrap of the 8-bit backlog; the alive counter follows all ticks modulo 2^32, the 100 ms counter the processed ones modulo 256 |
| `MainLoop.ServiceOnce` | firmware/PowerMon/src/main.c:322-332 | the timed part of one turn of the loop on the real objects is the modelled turn |
| `Heartbeat.Heartbeat.Run` | firmware/PowerMon/src/Heartbeat.c:22-37 | one pending tick, if any, moves into the three counters |
| `Usart.Usart.SetAsyncBaudrate` | firmware/PowerMon/src/ASF/sam/drivers/usart/usart.c:118-150 | refused exactly when the divider is out of range, registers then unchanged; else bits 0 to 15 of the generator register are the divider's whole part and the bits above its eighths; mode bit 19 is set when the clock is below 16 times the rate and never cleared, all other mode bits are kept |
| `Usart.Usart.InitRs232` | firmware/PowerMon/src/ASF/sam/drivers/usart/usart.c:317-342 | fails exactly when the divider is out of range; else the generator register holds whole part and eighths, the mode bits are the options', bit 19 also set for a clock below 16 times the rate; and when the hardware then oversamples as computed its rate is within 1/(2n) of the set point if and only if nothing wrapped at 32 bits |
| `Usart.FirmwareSetting` | firmware/PowerMon/src/UartBuffer.c:16-33 | 115200 baud from a 6 MHz clock is three and two eighths, and nothing wraps |
| `Usart.NearestExactly` | firmware/PowerMon/src/ASF/sam/drivers/usart/usart.c:126-139 | an accepted divider 8 cd + fp is a nearest integer to 8 mck / (over baud) if and only if neither the product nor the rounded sum left 32 bits |
| `Usart.AcceptedRateIsClose` | firmware/PowerMon/src/ASF/sam/drivers/usart/usart.c:126-139 | for every clock and rate an accepted rate is within 1/(2n) of the set point if and only if nothing wrapped, and then within 1/16; with mck at least 16 times the rate and nothing wrapped it is never refused as too small |
| `Usart.WrappedSettingIsAccepted` | firmware/PowerMon/src/ASF/sam/drivers/usart/usart.c:133-137 | at 115200 baud a clock a little over 2^29 Hz wraps the sum, and the divider accepted is off by a factor of more than fifty |
| `Words.BitOfOr` | firmware/PowerMon/src/ASF/sam/drivers/usart/usart.c:143 | or-ing two registers sets just the bits set in either |
| `UartBuffer.UartBuffer.PutChar` | firmware/PowerMon/src/UartBuffer.c:72-82 | the byte is queued, dropped or makes the ring forget as PutLeaves spells out, then one interrupt step |
| `UartBuffer.PutLeaves` | firmware/PowerMon/src/UartBuffer.c:75-79 | after any run, with the line busy: behind exactly one pending byte a put is dropped unless 255 modulo 256 have been sent, behind 255 all are forgotten, else it joins them |
| `UartBuffer.OutIndexCountsSent` | firmware/PowerMon/src/UartBuffer.c:53-58 | in every run the out index is the number of bytes sent modulo 256 |
| `UartBuffer.UartBuffer.Interrupt` | firmware/PowerMon/src/UartBuffer.c:45-64 | the oldest pending byte goes to a ready transmitter and an arrival joins the unread ones |
| `UartBuffer.UartBuffer.GetChar` | firmware/PowerMon/src/UartBuffer.c:107-117 | the oldest unread byte is taken, or NUL with nothing changed |
| `UartBuffer.UartBuffer.PutString` | firmware/PowerMon/src/UartBuffer.c:84-90 | on any ring, with the transmitter ready or not and bytes arriving at each step, a string put is the run of puts of its characters up to the NUL |
| `UartBuffer.ReadyStringGoesOut` | firmware/PowerMon/src/UartBuffer.c:84-90 | into an empty ring with the transmitter ready for each byte the whole string goes out in order |
| `UartBuffer.PendingPush` | firmware/PowerMon/src/UartBuffer.c:59-63 | storing at the in index with 8-bit wrap adds one pending byte, or empties a ring of 255 |
| `UartBuffer.RunKeepsOrder` | firmware/PowerMon/src/UartBuffer.c:45-117 | in every run bytes sent are an in-order subsequence of those offered, bytes read of those received, none duplicated |
| `UartBuffer.TxLosslessExactly` | firmware/PowerMon/src/UartBuffer.c:75-79 | transmission loses nothing if and only if no byte was put behind 255 unsent ones, nor behind exactly one unless 255 modulo 256 had been sent |
| `UartBuffer.TxHoldsTheLatest` | firmware/PowerMon/src/UartBuffer.c:45-82 | in every run, losses or not, the transmit ring holds the latest of the bytes let in, as many as are unsent modulo 256 |
| `UartBuffer.RxHoldsTheLatest` | firmware/PowerMon/src/UartBuffer.c:55-117 | in every run the receive ring holds the latest of the bytes received, as many as are unread modulo 256 |
| `UartBuffer.RxLosslessExactly` | firmware/PowerMon/src/UartBuffer.c:59-63 | reception loses nothing if and only if no byte arrived behind 255 unread ones |
| `UartBuffer.SecondByteIsDropped` | firmware/PowerMon/src/UartBuffer.c:75-79 | of two bytes offered to a quiet line that is not ready the second is lost |
| `LineAssembler.AssemblesTheSplit` | firmware/PowerMon/src/main.c:263-283 | the lines handed on are the non-empty stretches between terminators in order and cut to 256 characters, the unfinished line the last stretch, and the byte behind the buffer is written if and only if a stretch is longer than 255 |
| `LineAssembler.ArrivalsJoin` | firmware/PowerMon/src/main.c:263-283 | the outcome does not depend on how the input is cut into arrivals |
| `LineAssembler.ShortLinesComeWhole` | firmware/PowerMon/src/main.c:277-281 | nothing is written outside the buffer if and only if every stretch is at most 255 characters, and then every line is handed on whole |
| `Firmware.Receiver.RunConfig` | firmware/PowerMon/src/main.c:263-283 | from any state and for any input the loop hands on the assembler's lines and sends a line feed and the response for each |
| `Firmware.Receiver.ServeTurns` | firmware/PowerMon/src/main.c:263-283 | any number of calls leave the state of one call on the joined input and send the replies to the lines asked, each with its own turn's readings |
| `Firmware.AsksAreTheLines` | firmware/PowerMon/src/main.c:263-283 | over any number of turns the lines answered are those of the joined input, however it was cut |
| `Firmware.ReadingsAreTheTurns` | firmware/PowerMon/src/main.c:263-283 | each line is answered with the readings of the turn that completed it |
| `Firmware.CpLookup` | firmware/PowerMon/src/CmdProcessor.c:26-43 | the first table entry the line begins with, and the line from its first blank on; none if no entry matches |
| `Firmware.CommandIsAnswered` | firmware/PowerMon/src/main.c:232-242 | a line whose first word begins with one of the eight command words, volt aside, is answered by that word's handler with the text from the first blank on |
| `Firmware.UnknownIsNotAnswered` | firmware/PowerMon/src/CmdProcessor.c:30-43 | a line that begins with none of the eight words gets the empty response |
| `Firmware.VoltIsAnswered` | firmware/PowerMon/src/main.c:83-99 | a volt line is answered with the text of the channel its argument begins with, sec or pri, and with nothing for any other |
| `PollCycle.FirmwareAnswersPoll` | firmware/PowerMon/src/main.c:83-99 | a poll line is answered with a line feed, "Voltage: ", the channel, the number and " mV" |
| `Decimal.PrintIsTheNumeral` | firmware/PowerMon/src/main.c:97 | a printed number is the only digit string without a leading zero that reads as that number |
| `Decimal.AtoiReadsPrinted` | daemon/src/Cmds_PMon.c:169 | a printed unsigned number followed by no digit parses back to itself |
| `Decimal.AtoiReadsSigned` | daemon/src/Cmds_PMon.c:169 | with a minus in front it reads as its negative, with a plus as itself |
| `Decimal.AtoiOfNoNumber` | daemon/src/Cmds_PMon.c:169 | a text that begins with no number reads as 0 |
| `CmdParse.NewlineIsSkipped` | daemon/src/CmdParse.c:43-46 | a left-over line feed in front of a line does not change what it dispatches |
| `CmdParse.LineDispatches` | daemon/src/CmdParse.c:43-64 | a line dispatches, behind its blanks, the first table entry that begins the text before the colon, with the text behind the colon if there is any; nothing for a blank command or one no entry begins |
| `CmdParse.CallTakesHead` | daemon/src/CmdParse.c:39-65 | one call dispatches the first line and leaves the rest, behind a line feed if the line began with one |
| `CmdParse.Consumed` | daemon/src/CmdParse.c:39-65 | every consuming call shortens the buffer |
| `CmdParse.ProcessString` | daemon/src/CmdParse.c:31-68 | in place: dispatches what the first line says and leaves the rest of the text, behind a kept line feed if the line began with one |
| `CmdParse.FramingIsIndependent` | daemon/src/CmdParse.c:31-68 | over any interleaving of arrivals and calls, what was dispatched followed by what the buffer still holds is what the lines of the whole stream dispatch |
| `CmdParse.DrainedRunsDispatchTheStream` | daemon/src/CmdParse.c:31-68 | once no carriage return is left, exactly the stream's lines have been dispatched in order, however it was cut into reads |
| `PMon.Daemon.Drain` | daemon/src/PowerMon_Main.c:131-133 | the loop ends with no complete line left if and only if every complete line but the last is answered, and has dispatched all of them if and only if no answered line stands behind an unanswered one; the readings are kept in step |
| `PMon.DrainsExactly` | daemon/src/PowerMon_Main.c:131-133 | the same condition for every buffer: the loop stops behind the first line nothing answers |
| `PMon.DispatchesAllExactly` | daemon/src/PowerMon_Main.c:131-133 | a drain dispatches all the buffer's lines if and only if no answered line stands behind an unanswered one |
| `PMon.VersionStopsTheDrain` | daemon/src/PowerMon_Main.c:131-133 | a version line, whatever its text, stops the drain with every line behind it still in the buffer |
| `PMon.NothingIsLost` | daemon/src/PowerMon_Main.c:105-134 | over any reads, wherever the drains stopped, what was dispatched followed by what the buffer holds is what the stream's lines dispatch |
| `PMon.AnsweredStreamIsKeptUp` | daemon/src/PowerMon_Main.c:105-134 | when the stream holds only lines the table answers, every read is drained to the last line and exactly the stream's lines have been dispatched |
| `PMon.EnoughCallsDrain` | daemon/src/CmdParse.c:39-65 | as many calls of the framer as there are characters use up every complete line, answered or not |
| `PMon.Daemon.ReceiveVoltage` | daemon/src/Cmds_PMon.c:150-178 | the reading named by the reply is stored, any other reply refused with 0 |
| `PMon.ReplyIsDispatched` | daemon/src/Cmds_PMon.c:181-185 | only replies whose command begins with Voltage or with current, in just that spelling, are answered |
| `PMon.CurrentReplyIsUnanswered` | daemon/src/Cmds_PMon.c:181-185 | the firmware's replies that begin with Current are answered by nothing |
| `PMon.VoltageIsHandled` | daemon/src/Cmds_PMon.c:150-178 | the channel named by the first word, Pri or Sec, takes the number behind it and the handler returns 1; any other word changes nothing and returns 0 |
| `PMon.OthersAreHandled` | daemon/src/Cmds_PMon.c:134-147 | a current argument sets the current; a reply without an argument changes nothing |
| `PMon.Daemon.Receive` | daemon/src/PowerMon_Main.c:123-129 | what was read, up to its first NUL, is appended to what is held, for any read there is room for |
| `PMon.Daemon.OnReadable` | daemon/src/PowerMon_Main.c:120-135 | one wake-up is one read and, if it brought anything, one drain |
| `PollCycle.ReadingsFollow` | daemon/src/PowerMon_Main.c:105-134 | at any moment, however the replies so far and part of another were cut into reads, alternating reads and drains have used up every complete line and the readings are those of the replies, in order |
| `PollCycle.RepliesWaitBehindTheVersion` | daemon/src/PowerMon_Main.c:131-133 | replies that arrive in one read behind a version line are not dispatched by that read's drain |
| `PollCycle.PollCycleRoundTrip` | daemon/src/Cmds_PMon.c:100-185 | for any number of polls, all voltages below 2^31 that may differ from turn to turn, and all ways requests and replies are cut up, the daemon ends with the two millivolt values the firmware had in the turns that completed the last poll's lines |
| `PollCycle.PollCycleOverTheRings` | firmware/PowerMon/src/UartBuffer.c:45-117 | the same through the real rings, over any interleaving of interrupts, puts and gets in which no byte meets a ring that drops or forgets |
| `UartBuffer.ReadyPutsLoseNothing` | firmware/PowerMon/src/UartBuffer.c:72-90 | no byte meets a transmit ring that drops or forgets if the transmitter is ready for each |
| `UartBuffer.ShortReceptionLosesNothing` | firmware/PowerMon/src/UartBuffer.c:59-63 | no byte meets a receive ring that forgets while no more than 255 arrive in all |

## Left out

- EE_Read1_Default, EE_Read2_Default: the same shape as the four-byte one that is modelled, and nothing in the firmware calls them.
- DFS_ReadChipID: a fixed two-byte exchange whose result is not used.
- SPI, PIO, clock, watchdog and sleep registers, chip-select pins, the AD7787 converter and PowerChan_Run: hardware plumbing; a voltage is a parameter.
- The command handlers other than the voltage reply: their text is a parameter of the receiver; the restart handler never returns and is not modelled.
- The "current" reply round trip: the firmware prints "Current" and the daemon's table has "current", so no such reply is ever dispatched (`PMon.CurrentReplyIsUnanswered`).
- Shared memory, mutexes, termios, select, daemonising and signals of the daemon; its readings are whole millivolts, where the source divides by 1000 into a float.
- The block-local read buffer of the daemon's main loop is modelled as one that persists and starts empty.
- Interrupts between the two index updates of one ring operation, and the main loop's unprotected call of the interrupt routine: each is an atomic step.
- Is_100ms, SysLog, Run_Line and FlushDelay: not used, empty or write-only.
- The last 16 bytes of a 528-byte flash page: a program rewrites them from the buffer; only the 512 the cache uses are refined.
- `CacheLru.ResidentExactlyWhenRecent`: does not speak of page 0xFFFF, which doubles as the tag of a fresh slot, nor of pages last requested 32767 or more requests ago, whose ages are saturated and no longer ordered.
- `Firmware.Receiver.RunConfig`: does not interleave the receiving of further bytes with the sending of a reply, which UartBuffer covers step by step; the byte behind the buffer is a cell of its own, and what the linker keeps there is not modelled.
- `PMon.Daemon.Receive`: a read that fills the 4096 characters writes its NUL to a cell of its own behind them; what the compiler keeps there is not modelled, nor is a failed read, which closes the port.
- `Usart.Usart.SetAsyncBaudrate`: a rate whose product with the oversampling wraps to zero is excluded, because the source then divides by zero.
