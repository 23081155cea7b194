# PiPixelController: from datagrams to SPI frames

PiPixelController receives pixel data over two protocols, ZCPP and E1.31 (ACN), into one
24576-byte pixel buffer, receives over ZCPP the table that says which channels each of the 4 x 8
virtual strings shows, and at most twenty times a second packs each enabled port's channels into one SPI
transfer: eight 16-bit counts, then the strings' bytes one behind the other. Three threads share
the buffer and the table without a lock. This project models that pipeline and proves what a
transmitted frame is worth.

The main results, hardest first:

* **Racing threads** (`Interleaving.dfy`). Every byte a listener copies, every table cell it
  writes, every table read and byte copy of the gather is a step of its own, in any order. While
  the port's counts stay, the frame is delimited by its counts (`DelimitedFrame`); while its starts
  stay too, each byte was in its own channel at some moment of the gather, later bytes at later
  moments (`InterleavedFrame`), and some packet that had arrived before that moment said it for
  that very channel, or it was there at first (`SentBytesWereSaid`). A channel always holds the
  byte of the last byte step on it (`LastStepWins`). Nothing holds an arrival back (`ArrivalStep`): a
  packet that reaches an idle listener, whatever the other threads are doing, and is copied to its
  end is in the buffer wherever the other listener has nothing to write (`ArrivedPacketLands`). If no
  packet touches the port's channels the racing gather sends what the atomic one sends
  (`UntouchedGatherIsAtomic`).
  While only starts change, each string shows the range from one start that its cell held
  (`MovingFrame`). While the counts stay, no schedule keeps a gather from its end (`GatherEnds`).
* **A configuration that races with a gather** (`Races.dfy`, `RacingMessages.dfy`). The source
  reads each string's count four times and its start once while the cells change. No schedule
  leads outside the pixel buffer or the payload if and only if every mix of a tested count, a start
  and a copied count from table versions in this order is in range and every choice of versions
  for the eight strings fits the payload (`RaceSafeIff`). Safe tables are not enough: a message
  from a safe table to a safe table, over safe tables only, can make the program read behind the
  pixel buffer (`SafeTablesUnsafeRace`). What is enough is a fixed cap for every string, which all
  messages keep (`RacingMessagesStayInside`). Over safe tables the writes can tear a frame if and
  only if one of them changes a count of the port (`FrameTearsIffCountChanges`), so that a message
  with a new sequence number can tear every port that has or gets channels (`NewConfigTearsIff`).
  A gather that is never led outside ends within a number of steps that the largest counts give
  (`RaceEnds`).
* **Old bytes in a frame** (`StalePayloads.dfy`). The payload is never cleared, and the source reads
  a count once for the copy and again for the advance. A gather that racing table writes do not lead
  outside can send bytes which an earlier frame left in the payload, if and only if some string has
  channels in one version of the table, and in a later one fewer than in one later still
  (`SendsStaleIff`). So a message with a new sequence number can do it exactly when it gives channels
  to a string that had some, or to one string some, then fewer than later (`NewConfigSendsStaleIff`).
  The same configuration sent under another number suffices, and the frame with the old byte is well
  delimited (`OldByteSent`).
* **The protocols in plain numbers** (`ByteLaws.dfy`). For every content of the receive buffers and
  every state, what handling does, byte by byte: `ZcppConfigLaw`, `ZcppDataLaw`, `ZcppOtherLaw`,
  `AcnLaw`.
* **End to end, with datagrams and frames as atomic steps** (`EndToEnd.dfy`). After any run of
  serialised configuration, data and universe packets, ignored datagrams, failed receives and frames,
  the next frame, read by its own counts alone, shows for every string the range last configured for
  it and for every channel of it the byte last written (`FrameShowsLatest`). So taken, the run stays
  inside the arrays if and only if every frame falls on a safe table (`AtomicRunStaysInsideIff`), which
  it does when each group of configuration messages, resent or not, is within capacity
  (`WellBehavedRunsStayInside`).
* **Reused buffers.** The effect of a datagram is independent of what the receive buffer held
  before if and only if the datagram holds every byte that is read
  (`StaleBytesMatterIffUncovered`, for E1.31 `AcnStaleBytesMatterIffUncovered`). A failed receive
  handles the buffer again. That changes nothing if and only if each channel of the data in it got
  no byte, or last the same byte, from the other listener since (`FailedZcppReceiveIff`,
  `FailedAcnReceiveIff`); else an old packet overwrites a newer one (`FailedReceiveReverts`), and
  before the first arrival whatever the uninitialised buffer holds is handled
  (`FailedFirstReceive`). With frames as atomic steps, what a port sends does not depend on earlier
  frames, although the payload keeps their bytes (`SendPort`, `RunEvents`); with racing table writes it
  can (`SendsStaleIff`).
* **Configuration groups** (`StringTable.dfy`). After any run of messages the table is the overlay
  of the final group of one sequence number, over nothing; only a group that began with the run and
  has the number in force keeps the table it found (`RunIsFinalGroup`).
* **Reassembly, universes.** Packets of one frame, reordered and repeated at will, leave that frame
  if and only if they reach every byte (`Reassembly`); a universe range is safe if and only if it is
  at most 48 long or cut off by the 16 bits of a universe number (`UniverseRangeFits`).

The listener's methods log every table cell they write; the log of a run is the list of cells that
the races are about (`ProcessConfig`, `PacketsCells`).

Loops and shared memory are imperative Dafny over arrays (`Hardware`, `Zcpp`, `Acn`, `Worker`,
`Controller`, `Gpio`), each method proved against a function of the old state; the properties are
lemmas about these functions. Packet layouts and wire conversions are functions. The table's
`string_ctrl` arrays lie end to end in two arrays of 32, slot 8 * port + string. Out-of-bounds
accesses, which the program does not check for, are an outcome of their own (`OutOfBounds`) in the
specifications, and the methods require that it does not arise: port below 4 and string below 8,
44 + 16 * ports and 15 + length within the 1500-byte receive buffer, frame address + length within
the pixel buffer, a property count of at least 1, and for a gathered port ranges within the pixel
buffer and counts of at most 19200 in all. Integers have the width the program gives them where it
matters: `ntohl` into `int`, counts into `uint16_t`, the 64-bit clock difference, 16-bit sizes,
32-bit masks. Words in memory are little-endian, as on the boards the program runs on.

Where code and comments disagree the model follows the code: `ZCPP_CONFIGURATION_HEADER_SIZE` is
28 and not 44, because the struct's array is flexible, so the size function is 16 short for every
configuration (`SizeOfConfig`); and the sequence number starts at 0, so a first configuration
numbered 0 is laid over the file's table instead of an empty one (`TableAfterRun`).

## Model

| member | source | states |
|---|---|---|
| `Interleaving.InterleavedFrame` | pipixelworker.c:65-78 | under any interleaving of byte steps, with the port's row stable, every transmitted byte is a sample of its own channel during the gather, in increasing order of time |
| `Interleaving.DelimitedFrame` | pipixelworker.c:65-77 | under any interleaving that leaves the port's counts alone and keeps every table within bounds, the header announces the table's counts and delimits the data exactly |
| `Races.RaceSafeIff` | pipixelworker.c:66-74 | for every sequence of table cells written during a gather: no schedule leads outside the pixel buffer or the payload, if and only if every mix of versions a string can be read in is in range and every choice of versions for the eight strings fits the payload |
| `Races.OneWriteStaysInside` | pipixelworker.c:66-74 | one cell written between two safe tables never leads outside |
| `Races.UnwrittenTable` | pipixelworker.c:66-74 | under a table nobody writes every gather is inside exactly when the table is safe |
| `Races.BadMixFaults` | pipixelworker.c:69-71 | a schedule that leads outside, for every mix that is out of range |
| `Races.FrameTearsIffCountChanges` | pipixelworker.c:68-72 | for every sequence of cell writes over safe tables: some schedule sends a frame its counts do not delimit, if and only if some write changes a count of the port from its value at that write |
| `Races.RaceHarmlessIff` | pipixelworker.c:66-74 | for every sequence of cell writes: nothing leads outside and nothing tears, if and only if all tables on the way are safe and no count of the port changes |
| `Races.ChangeTears` | pipixelworker.c:68-72 | a schedule that tears, for every such change: header stored before the write, bytes copied after it |
| `Races.HarmlessWrites` | zcpp_implementation.c:169-170 | writes of starts, of other ports' cells, or of the same counts never tear a frame |
| `Races.RaceEnds` | pipixelworker.c:66-74 | for every sequence of cell writes that leads no schedule outside: a gather has finished once the worker has taken, for every string, six steps and one for each channel of the largest count it passes through |
| `StalePayloads.SendsStaleIff` | pipixelworker.c:68-72 | for every sequence of cell writes that leads no schedule outside: two runs of one schedule that differ only in what the payload held can send different frames, if and only if some string has channels in one version, and in a later one fewer than in one later still |
| `StalePayloads.NewConfigSendsStaleIff` | zcpp_implementation.c:152-170 | a message with a new sequence number can make a racing gather send old bytes, if and only if it gives channels to a string of the port that had some, or to one string some, then fewer than later |
| `StalePayloads.OldByteSent` | pipixelworker.c:68-72 | the only string of a port has one channel and is configured once more: for every byte, a schedule that sends it from the old payload, in a well delimited frame |
| `RacingMessages.RacingMessagesStayInside` | zcpp_implementation.c:152-172 | if every message of a run keeps each string within its cap, and the caps are in range and fit a payload, a gather that begins anywhere in the run and races with the rest never leads outside |
| `RacingMessages.CapsKeepTablesSafe` | zcpp_implementation.c:152-172 | under such caps every table on the way is safe to gather |
| `RacingMessages.SafeTablesUnsafeRace` | pipixelworker.c:69-71 | a message within capacity from a safe table to a safe one, every table between them safe, and a schedule that reads behind the pixel buffer |
| `RacingMessages.NewConfigTearsIff` | zcpp_implementation.c:152-170 | a message with a new sequence number over safe tables can tear a port's frame, if and only if the port has channels or is given some |
| `RacingMessages.RunCellsMakeRun` | zcpp_implementation.c:152-170 | the cells of a run of messages, written one by one, make the run's table |
| `StringTable.CellsMakeStep` | zcpp_implementation.c:152-170 | the 64 cells cleared for a new sequence number and the two of each entry, written one by one, make the configuration step |
| `Interleaving.UntouchedGatherIsAtomic` | pipixelworker.c:62-79 | a gather for whose channels no packet is under way or arrives sends the frame of the atomic gather, whatever the listeners write elsewhere |
| `Interleaving.CompletedCopyLands` | zcpp_implementation.c:190 | no write is lost: a copy of either listener that ran from its first byte to its last is in the buffer wherever the other listener had no packet, under any interleaving |
| `Interleaving.ArrivedPacketLands` | zcpp_implementation.c:214-216 | in any run: a packet that reaches an idle listener of either kind and is copied to its end is in the buffer at the end, in every channel for which the other listener has or gets nothing from then on |
| `Interleaving.ArrivalStep` | acn.c:62-75 | an arrival starts the copy of an idle listener whatever the other threads are doing, and leaves pixels, table, gather and the other listener as they were |
| `Interleaving.CellStep` | zcpp_implementation.c:157-170 | a table cell is written whatever the other listener and the gather are doing, but not while the writing thread copies, and nothing else changes |
| `Interleaving.EveryScheduleRuns` | PiPixelController.c:219-237 | the threads' steps can be taken in any order from any state: there is no lock |
| `Interleaving.LastStepWins` | zcpp_implementation.c:188-190 | at every moment of any interleaving a channel holds the byte of the last byte step taken on it, by whichever listener |
| `Interleaving.SentBytesWereSaid` | acn.c:75 | every transmitted byte was in its channel when the gather began, or was said for that channel by a packet under way then or arriving before the moment the byte was taken |
| `Interleaving.PixelsWereSaid` | zcpp_implementation.c:188-190 | at every moment of any interleaving a channel holds its first value or one some packet said for it |
| `Interleaving.MovingFrame` | pipixelworker.c:65-78 | while the port's counts stay and its starts change, the transmitted bytes are samples, in increasing order of time, of the ranges from one start per string on, a start that its cell held during the gather |
| `Interleaving.GatherEnds` | pipixelworker.c:66-74 | a gather has ended exactly when the worker has taken the number of steps its table row calls for, whatever the listeners do |
| `Interleaving.GatherSampled` | pipixelworker.c:66-74 | the invariant of a racing gather: no fault, header and offset right so far, the payload so far a list of samples |
| `EndToEnd.FrameShowsLatest` | pipixelworker.c:62-79 | with datagrams and frames as atomic steps: after any run of packets, ignored datagrams, failed receives and frames the next frame shows, string by string, the last configured range and the last byte written for each channel |
| `EndToEnd.PacketsRun` | zcpp_implementation.c:212-243 | the state after a run is that of its messages and of its writes, each taken alone, whatever the receive buffers held at first; a failed receive writes its listener's last packet again |
| `EndToEnd.PacketsCells` | zcpp_implementation.c:152-172 | the table cells written in a run of packets are, in order, those of its configuration messages, which a gather races with |
| `EndToEnd.AtomicRunStaysInsideIff` | pipixelworker.c:62-79 | with datagrams and frames as atomic steps, a run of well-formed packets stays inside the arrays if and only if every frame falls on a safe table of the merged messages |
| `EndToEnd.WellBehavedRunsStayInside` | pipixelworker.c:17-21 | with datagrams and frames as atomic steps, well-formed packets in groups within capacity, with any resends, never lead outside an array, over all runs |
| `Controller.PixelController.RunEvents` | PiPixelController.c:219-237 | over any run of datagrams, failed receives and frames, each an atomic step, the state, the table cells written and what each port has sent are those of the specification |
| `Controller.PixelController.Handle` | PiPixelController.c:227-233 | one event of the three threads |
| `Controller.PixelController.constructor` | PiPixelController.c:131-138 | pixels 0, the file's table, sequence number 0, nothing sent |
| `ByteLaws.ZcppDataLaw` | zcpp_implementation.c:188-190 | for every buffer with "ZCPP" and type 0x14: inside exactly if 15 + n <= 1500 and a + n <= 24576 for big-endian a in bytes 8 to 11 and n in 12 and 13; then pixel a + i becomes byte 15 + i for i < n, and nothing else changes |
| `ByteLaws.ZcppConfigLaw` | zcpp_implementation.c:147-172 | for every buffer with "ZCPP" and type 0x0A: inside exactly if the entries are within the buffer and name strings that exist; the sequence number is bytes 6 and 7; each string has the signed big-endian count and start of the last entry that names it, or its old ones, or none under a new number |
| `ByteLaws.ZcppOtherLaw` | zcpp_implementation.c:217-242 | every other buffer changes nothing |
| `ByteLaws.AcnLaw` | acn.c:67-91 | for every buffer: with "ASC-E1.17" and a NUL from byte 4 on and the universe of bytes 113 and 114 in range, the pixels from (universe - start) * 512 on become the bytes from 126 on, one fewer than bytes 123 and 124 say; otherwise nothing changes |
| `ByteLaws.ReceivedBytes` | acn.c:62-64 | a datagram overwrites the front of the 1500 bytes, and a failed receive nothing |
| `Datagrams.StaleBytesMatterIffUncovered` | zcpp_implementation.c:206-243 | handling depends on the datagram and the prior state only, for every previous receive buffer, if and only if the datagram covers what is read |
| `Datagrams.CoveredIndependent` | zcpp_implementation.c:163-190 | a covering datagram has one effect over all previous receive buffers |
| `Datagrams.TrueSizeIsCovered` | ZCPP.h:260-273 | datagrams of the true size of their packet are covering |
| `Datagrams.ConfigRoundTrip` | zcpp_implementation.c:149-172 | a serialised configuration of any length that fits the receive buffer is processed as its own sequence number and entries |
| `Datagrams.DataRoundTrip` | zcpp_implementation.c:182-192 | a serialised data packet writes its data at its frame address |
| `Zcpp.Handle` | zcpp_implementation.c:218-241 | only configurations change the table and the sequence number, only data packets the pixels; other packets and other tokens change nothing |
| `Zcpp.ZcppListener.ProcessConfig` | zcpp_implementation.c:147-173 | the table and the sequence number become those of one configuration step; the cells are written one by one, 64 if the number is new, then the count and the start of each entry |
| `Zcpp.ZcppListener.SetStrings` | zcpp_implementation.c:163-172 | the loop over the ports overlays the packet's entries in order |
| `Zcpp.ZcppListener.ClearTable` | zcpp_implementation.c:155-160 | the nested loops leave no channels configured |
| `Zcpp.ZcppListener.ProcessData` | zcpp_implementation.c:182-192 | the pixel buffer is overwritten from the frame address on and nowhere else |
| `Zcpp.ZcppListener.Dispatch` | zcpp_implementation.c:217-242 | the state changes as the token and the type say, and not at all for other packets |
| `Zcpp.ZcppListener.Listen` | zcpp_implementation.c:212-243 | the receive loop over any list of arrivals, failures among them, with the receive buffer reused; the table cells it writes, in order |
| `Zcpp.HandlingTwice` | zcpp_implementation.c:214-242 | handling the same buffer twice in a row is handling it once |
| `Zcpp.FailedReceiveAlone` | zcpp_implementation.c:214-216 | as long as no other listener writes, a failed receive after at least one arrival leaves the state of the run as it was |
| `FailedReceives.FailedZcppReceiveIff` | zcpp_implementation.c:214-242 | after a ZCPP arrival and any E1.31 arrivals and frames, a failed ZCPP receive changes nothing, if and only if the buffer holds no data packet or each of its channels got no byte, or last the same byte, from the other listener since |
| `FailedReceives.FailedAcnReceiveIff` | acn.c:62-77 | the same for a failed E1.31 receive after any ZCPP arrivals and frames |
| `FailedReceives.FailedReceiveReverts` | zcpp_implementation.c:214-242 | channel 0 gets 7 over ZCPP, then 9 over E1.31, and a failed ZCPP receive makes it 7 again |
| `FailedReceives.FailedFirstReceive` | zcpp_implementation.c:214-216 | before the first arrival, some contents of the uninitialised buffer change a pixel and some lead outside the arrays |
| `Socket.RecvFrom` | zcpp_implementation.c:214-216 | the datagram overwrites the front of the receive buffer; the rest stays |
| `StringTable.RunIsFinalGroup` | zcpp_implementation.c:152-172 | after any run the table is the overlay of the longest suffix with the final sequence number, over an empty table or, for one case exactly, the table found |
| `StringTable.TableAfterRun` | zcpp_implementation.c:15 | from the initial sequence number 0: string by string the last entry of the final group, else the file if all numbers are 0, else nothing |
| `StringTable.GroupStart` | zcpp_implementation.c:152-154 | the start of the longest suffix of messages with the final sequence number |
| `StringTable.OverlayAt` | zcpp_implementation.c:169-170 | last entry wins for each string, other strings keep their values |
| `StringTable.SplittingChangesNothing` | zcpp_implementation.c:147-173 | a list of entries cut in any way into packets of one sequence number has the effect of the uncut list |
| `StringTable.ResendChangesNothing` | zcpp_implementation.c:163-172 | sending the whole list again changes nothing |
| `StringTable.PermutingDistinctSlots` | zcpp_implementation.c:163-172 | the order of entries for distinct strings does not matter |
| `StringTable.OverlayCapped` | zcpp_implementation.c:169-170 | an overlay's total for a port is at most the sum of the largest counts, string by string, that the table had or the entries ask for |
| `StringTable.ResendsKeepCaps` | ZCPP.h:48 | entries sent again, in any order and number, leave these largest counts as they are |
| `StringTable.SumsBoundCaps` | zcpp_implementation.c:169-170 | the largest counts sum to at most the old total and what the entries ask for |
| `StringTable.OverlayBounded` | zcpp_implementation.c:169-170 | an overlay's total for a port is at most the old total and what the entries ask for |
| `StringTable.CapacityKept` | pipixelworker.c:17-21 | if in every group of messages the largest counts asked for, string by string, fit a payload, the port can be gathered after every message of the run, resends included |
| `Hardware.ThreadCtrl.constructor` | PiPixelController.c:189-217 | the cleared buffer, and the table loaded by the nested loops over the file's lists |
| `Hardware.FileTableSpelledOut` | PiPixelController.c:200-213 | the last element of a string's list that has all three fields, whatever their values, sets its count and start; without one it has no channels |
| `Hardware.FileTableAt` | PiPixelController.c:207-213 | each string has the last complete element for it in its chip select's list, or no channels |
| `PixelBuffer.ApplyAllAt` | zcpp_implementation.c:188-190 | last write wins, byte by byte |
| `PixelBuffer.RewriteUnchangedIff` | zcpp_implementation.c:188-190 | a write repeated after other writes changes nothing, if and only if each of its channels got no byte, or last the same byte, from them |
| `PixelBuffer.Reassembly` | zcpp_implementation.c:182-192 | packets of one frame in any order with any repetition leave exactly the frame, for every previous buffer, if and only if they reach all its bytes |
| `PixelBuffer.DeliveryOrderIrrelevant` | zcpp_implementation.c:182-192 | two deliveries of the same packets of a frame, reordered and repeated, leave the same buffer |
| `Frames.RoundTrip` | pipixelworker.c:65-78 | splitting a frame by the prefix sums of its eight counts recovers each string's range of the buffer, also empty and overlapping ones |
| `Frames.HeaderAnnounces` | pipixelworker.c:68 | the eight 16-bit words hold the table's counts: narrowing loses nothing |
| `Frames.HeaderBytes` | pipixelworker.c:68 | bytes 2 * a and 2 * a + 1 of a frame are the low and the high byte of string a's count |
| `StringTable.PortSafeInNumbers` | pipixelworker.c:17-21 | a port can be gathered exactly if its eight ranges are within 24576 bytes and its counts are at most 19200 in all |
| `Frames.PortFrame` | pipixelworker.c:77 | the transmitted length is 16 plus the sum of the counts, and at most 19216 |
| `Worker.SendPort` | pipixelworker.c:65-78 | taken as an atomic step, the device sends the frame of the present table and pixels, whatever earlier frames left in the payload; bytes behind it stay |
| `Worker.Gather` | pipixelworker.c:66-74 | the loop's offset is the prefix sum, the counts are narrowed, the data are the strings' channels in order |
| `Worker.GatherString` | pipixelworker.c:68-73 | one string: its count stored, its range copied to the offset if it has channels |
| `Worker.Worker.SendFrame` | pipixelworker.c:62-133 | each enabled port whose transfer does not fail sends one frame, each other port none |
| `Worker.SpiDevice.Transfer` | spi_util.c:137-146 | the first `count` bytes at `buffer` leave the device, or none and -1 is returned if the `ioctl` fails |
| `Acn.AcnListener.Dispatch` | acn.c:65-77 | the pixel buffer after one received buffer: identifier, range, offset, copy |
| `Acn.AcnRoundTrip` | acn.c:67-91 | a serialised universe is written to its block, or not at all outside the range |
| `AcnDatagrams.AcnStaleBytesMatterIffUncovered` | acn.c:62-77 | handling depends on the datagram and the pixels only, for every previous receive buffer, if and only if the datagram's own bytes decide that it is ignored, or it holds every byte that is read |
| `AcnDatagrams.TrueSizeIsCovered` | acn.c:67-91 | universes of their true size are such datagrams |
| `Acn.WritesOwnBlock` | acn.c:74-75 | a packet with a property count of 1 to 513 writes inside its universe's 512 bytes |
| `Acn.DifferentUniversesCommute` | acn.c:72-76 | packets of different universes may arrive in either order |
| `Acn.RefinesZcppData` | acn.c:74-75 | an accepted packet acts as a ZCPP data packet at (universe - start) * 512 of count - 1 bytes |
| `Acn.UniverseRangeFits` | PiPixelController.c:136-138 | all properly counted packets of the range stay inside the buffer, if and only if the range is at most 48 long or ends with the 16-bit universe numbers |
| `Bytes.FromWireInjective` | ZCPP.h:402-429 | writing a read value restores its bytes, for 16 and 32 bits |
| `Bytes.ToWire32` | ZCPP.h:414-421 | reading a written value restores it |
| `Bytes.ToWire16` | ZCPP.h:424-429 | reading a written value restores its low 16 bits |
| `Wire.GetPacketActualSize` | ZCPP.h:432-461 | the size by type; for extra data the loop's sum, without 16-bit wrap-around |
| `Wire.WalkOverRecords` | ZCPP.h:444-447 | after k steps over serialised records the walk is at the boundary before record k, and at the end of the records after all |
| `Wire.SizeOfExtraData` | ZCPP.h:440-449 | the size of serialised extra data is 12 and the records' length |
| `Wire.SizeOfData` | ZCPP.h:454-455 | the size of a serialised data packet is its length |
| `Wire.SizeOfConfig` | ZCPP.h:438-439 | the size of every serialised configuration comes out 16 short |
| `Wire.SizesByType` | ZCPP.h:432-461 | for each type code the sum of its struct's field widths, with the counts the packet holds; 0 for other types |
| `Wire.DiscoveryProtocolToProtocol` | ZCPP.h:159-167 | the shift loop ends with the number of the highest bit |
| `Wire.ProtocolToDiscoveryProtocol` | ZCPP.h:169-177 | the shift loop ends with that power of two, or 0 from 32 on |
| `Wire.ProtocolRoundTrip` | ZCPP.h:159-177 | inverse on protocols below 32; a mask comes back as its highest bit, unchanged exactly if it is a power of two |
| `Pacing.FramesAreSpaced` | pipixelworker.c:58-140 | with a working clock and sleeps that are not cut short, n turns span n * 50000 measured microseconds, and at most 999 nanoseconds less in all |
| `Pacing.PauseOfTurn` | pipixelworker.c:134-140 | after a turn with working readings the worker sleeps exactly what the turn leaves of 50000 microseconds |
| `Pacing.NextFrameOnTime` | pipixelworker.c:134-140 | with sleeps that end on time the next frame is measured to start 50000 microseconds after the last or at the end of the turn, whichever is later |
| `Pacing.ShortTurnsKeepTime` | pipixelworker.c:58-140 | with such sleeps n turns that take at most 50000 microseconds span exactly n * 50000 |
| `Pacing.SpacingIsTight` | pipixelworker.c:134-140 | a run that meets the nanosecond bound |
| `Pacing.TimestampOf` | pipixelworker.c:30-39 | seconds and truncated nanoseconds give whole microseconds |
| `Pacing.FailedEndReading` | pipixelworker.c:134-140 | a clock that fails at the end of a turn drops the pause, so the spacing holds exactly if the turn itself lasted long enough |
| `Pacing.FailedStartReading` | pipixelworker.c:134-140 | a clock that fails at the start of a turn leaves a pause only within 50000 microseconds of its origin, with the exact condition for the spacing; one that fails both times gives the full pause |
| `Gpio.RegistersAreAMap` | gpio.h:69-107 | after any calls each pin has the function of the last effective call on it, and the spare bits are unchanged |
| `Gpio.FieldPlace` | gpio.h:71-72 | a pin's function is the three bits from bit 3 * (pin % 10) on of word pin / 10 |
| `Gpio.CallCodes` | gpio.h:73-107 | functions 0 to 5 write the codes 4, 5, 6, 7, 3, 2, outputs 0 and 1 their own, larger functions nothing, and no call another pin's field |
| `Gpio.DifferentPinsCommute` | gpio.h:69-107 | calls on different pins may come in either order |
| `Gpio.GpioBlock.Perform` | gpio.h:69-107 | the read-modify-write of the register array |

## Left out

- Sockets, multicast membership, discovery responses, printing and error exits: they do not touch the modelled state.
- `zcpp_listen` is the multicast loop over again and `main` does not start it; extra data, sync and query packets are dispatched and change nothing, as in the program.
- libconfig parsing and defaults: the parsed lists and the three numbers of `Setup` are inputs.
- `spi_init`, wiringPi, ioctls, the kernel mailbox, hardware detection: foreign calls. A transfer appends to a ghost list of what was sent, or fails and sends nothing; which transfers fail is an input.
- Gamma, brightness, colour order, grouping, null pixels, reversal, ZCPP priority and flags, E1.31 sequence numbers: carried by packets, without effect in the program.
- `gpio_level_set`: writes one bit to a write-only register.
- ZCPP_GetSmartRemote and the other bit accessors: single expressions that nothing in the program calls.
- The threads' steps are atomic by byte and by table cell; what C leaves undefined about data races, and reads of the table that a compiler merges, are not modelled. In `Interleaving` the ZCPP thread may write any cell at any time it is not copying; in `Races` the cells of a given list, in order. C leaves open in which order the arguments of the gather's `memcpy` are read; the model reads the start before the length.
- `Controller`, `EndToEnd` and `FailedReceives` take each datagram and each frame as one step; `Interleaving.UntouchedGatherIsAtomic` says when that is what happens to a frame, `Races`, `RacingMessages` and `StalePayloads` what happens when it is not.
- SendPort: the table and the pixels stay during the block; `StalePayloads.SendsStaleIff` says when a changing table lets old payload bytes through.
- RunEvents: each frame is an atomic step, so that no frame depends on an earlier one; racing frames can (`StalePayloads.OldByteSent`).
- FrameShowsLatest: each datagram and each frame is an atomic step, and no receive fails before its listener's first datagram (`FailedReceives.FailedFirstReceive` says why); what a frame shows that races with copies or messages is in `Interleaving`, `Races` and `StalePayloads`.
- WellBehavedRunsStayInside: holds for atomic steps only; racing gathers need the stronger `RacingMessages.RacingMessagesStayInside`, since the weaker condition fails (`SafeTablesUnsafeRace`).
- FailedReceiveAlone: leaves out the other writer of the pixels; `FailedReceives` has both.
- `Pacing` has one pause per turn with times as inputs; what a turn itself takes is not bounded.
