# Verified model of mini-gdbstub

mini-gdbstub is a C library that lets GDB debug an emulator over the GDB Remote Serial Protocol. This
project models the parts of it that have to be right together, and proves what they promise.

- `Framing`, `ArrayFramer`, `StaleMemory`, `DollarBalance`, `PacketBuffer`: the receive buffer that turns arbitrarily
  split reads into packets: the grammar, the loop as functions of the array with the stale bytes behind the valid
  ones, when the two agree, and the growing array object of `src/packet.c`.
- `PacketQueue`: the linked list between the reader thread and the main thread, and the sequence it stands for.
- `Codec`, `Connection`, `Socket`: hex, binary escapes, checksums, building and checking frames, the
  partial-write loop, and the two threads at the send mutex, each in its own send loop.
- `Registers`, `RegisterRead`, `RegBuf`: the transactional `G` command, `g`, and the scratch buffer.
- `MemoryCommands`, `Xfer`: `m`, `M`, `X` and the chunked `qXfer` document.
- `MainLoop`: checksum, acknowledgment, failure count, dispatch and replies, for any target; what a
  handler answers is given per packet.
- `Session`: the same loop with the real handlers, each of which appends its own reply, and the emulator
  as the target: the answers are computed and the machine is carried from packet to packet.
- `Pipeline`: the reader thread and the main thread as one step system. Every critical section, atomic
  access, read, scanned byte and handled packet is a step; the steps interleave in any way, and reads,
  failed allocations, poll results, spurious wakeups and what the target does are free. It is built
  from the functions that the array, list and loop code is proved against.
- `Interrupts`: when the reader calls `on_interrupt`, over every run of the two threads.
- `Requests`, `DataRequests`: for every request, from the bytes of the packet, the reply, the machine and whether the
  loop goes on.
- `LittleEndian`, `Riscv`, `Encoding`, `Stepping`, `Emulator`: the RV64 reference emulator, its
  instructions as functions of a machine state, its field decoding against the formats of the RISC-V
  Unprivileged ISA manual (20191213), sections 2.2 and 2.3, and its run loop against single steps.
- `Bits`, `Instructions`, `Runs`: immediates and sums bit by bit, one step for every instruction from its bytes in
  memory to all of the machine, and what stops a continue.
- `EndToEnd`: the pieces composed, from the client's bytes to the target and from replies to the client.

Methods on arrays, lists and fields are proved equal to specification functions, and the theorems are
about those functions, so each theorem speaks about the code that runs.

`dafny verify dfyconfig.toml` checks everything (Dafny 4.11).

## Where the code departs from its intent

The code is modelled as written. Where it does not do what its comments or the protocol say, the exact
condition under which it does is a theorem.

- `src/packet.c:72` accepts a packet whose last checksum digit is missing, and `src/packet.c:92-93` moves
  the rest of the buffer from one byte too far: it drops the byte behind the packet and brings in the one
  behind the buffer, which is a stale byte of the buffer itself unless the buffer starts with its '$'
  (`ArrayFramer.MemoryMatters`). `StaleMemory.SpacedExact`, and `StaleMemory.SpacedReceivesExact` for whole runs:
  when the framer is right, for packets that do not touch. `StaleMemory.UsualReadExact`: for the read of one
  packet, right whatever memory holds if and only if something precedes it and the stale byte is no '$'.
  `DollarBalance.TouchingNeedsStale`: with packets that touch it takes a stale '$' to make up for the one dropped.
  `StaleMemory.AckBehind` and `StaleMemory.InterruptBehind` are inputs that are right, `StaleMemory.ZeroedFails`,
  `StaleMemory.SecondPacketDropped` and `StaleMemory.ShortPacketLost` inputs that are not. Lockstep reads are enough
  (`ArrayFramer.LockstepReadsRight`) but not needed. The two corrected lines (`end_pos >= size`, and a
  move from `old_pkt_size`) are the rule `Corrected`; for it everything holds on every input.
  Theorems about whole runs of the threads hold for the corrected rule, and for the code as written under lockstep reads.
- `src/gdbstub.c:249` places register `i` at `i` times its own width.
  `RegisterRead.ReplyRightIffUniform`: the reply is right if and only if all widths are equal;
  `RegisterRead.UnevenReplyWrong` is an input.
- `src/gdbstub.c:366-370` ignores failed restores. `Registers.RollbackExact` says when the rollback is complete,
  `Registers.RollbackFails` is an input.
- `src/gdbstub.c:941-946` can exit cleanly with a packet still queued, after an interrupt.
  `Pipeline.CleanExitComplete` says exactly when it cannot, `Pipeline.PacketLeftBehind` builds the schedule and
  `Pipeline.CleanExitFails` reaches it from the start.
- `src/gdbstub.c:103-112` takes every 0x03 for an interrupt, inside packets too. `Pipeline.InterruptsExact`: only
  what lies between packets interrupts if and only if no packet holds a 0x03; `EndToEnd.WriteInterrupts` is one that does.
- `src/gdbstub.c:128` lets the reader send `+` before the checksum is known and in no-ack mode. `Pipeline.AcksExact`
  and `Pipeline.NoLateAckExact` say for which streams it does neither; `EndToEnd.BadPacketAcked` and
  `EndToEnd.NoAckAcked` are inputs. `MainLoop.AckDiscipline` is about the main loop's own acknowledgments.
- `src/gdbstub.c:484-485` answers `OK` to an `X` that was refused, `MemoryCommands.XAnswerExact` and
  `MemoryCommands.XRefusedSaysOk`.
- `src/gdbstub.c:512-518`: a request for a single byte of a document yields none, `Xfer.ProgressExact` and `Xfer.SingleBytesStall`.
- `src/utils/translate.c:37-39` reads the byte behind the message when it ends with an escape character;
  `Codec.UnescapeExact` says exactly when that byte matters, `Codec.DanglingRead` is an input.
- `src/utils/translate.c:15-30` decodes any character; `Codec.HexEncodeDecode` says when the round trip holds,
  `Codec.NotHexDecoded` is an input.
- `src/gdbstub.c:450-451` decodes as many digits as the length asks for; with a shorter text it goes on into the
  NUL and the checksum, `MemoryCommands.ShortContentExact` and `MemoryCommands.ShortContentAccepted`.
- `src/regbuf.c:24-26` does not terminate for a request above 2^63, `RegBuf.DoublingTerminates`.
- `emu/src/emu.c:227-228` (jalr with equal registers), `emu/src/emu.c:84-85` (lw zero-extends),
  `emu/src/emu.c:498` (a deleted breakpoint leaves address 0) and `emu/src/emu.c:418-430` (the bounds test wraps
  around): `Riscv.JalrExact`, `Riscv.LoadWordExact`, `Riscv.DeletionExact`, `Emulator.BoundsExact`, each with an
  input for which the code fails.
- `emu/src/emu.c:387-410` lets a negative register number through, `Emulator.Emu.ReadReg`.

## Model

| member | source | states |
|---|---|---|
| `Framing.HasFrameMeaning` | src/packet.c:66-75 | a frame heads the bytes exactly when some prefix is '$', no '#', '#', two bytes; that prefix is the only one |
| `Framing.PartitionUnique` | src/packet.c:43-97 | a stream has no other partition into '$'-free gaps, whole frames and an unfinished tail than the one the recursive grammar computes |
| `Framing.PartitionExists` | src/packet.c:43-97 | every byte stream has such a partition, and putting it together again gives the stream |
| `Framing.FramesAppend` | src/packet.c:22-78 | reading more bytes keeps the frames already found and goes on from the unfinished tail |
| `Framing.TakeAgrees` | src/packet.c:86-95 | one pop as written gives what the corrected pop gives exactly when the whole packet has arrived and the shift by one changes nothing |
| `Framing.ExpectedWhole` | src/gdbstub.c:67-136 | what all reads of a split deliver together is the frames of the whole stream, and what stays is its tail |
| `Framing.LockstepSnoc` | src/gdbstub.c:67-136 | lockstep can be checked read by read, from the tail left so far |
| `ArrayFramer.DrainRefines` | src/packet.c:43-97 | the loop on the array delivers and leaves what the loop on the valid bytes does with one byte behind them; after a skip that moves anything, and after every pop, that byte is one of the buffer's own |
| `ArrayFramer.MemoryMatters` | src/packet.c:92-93 | two arrays with the same valid bytes are drained alike if the first byte behind is the same, or if the buffer does not start with its '$' |
| `ArrayFramer.CorrectedRight` | src/gdbstub.c:115-135 | the corrected inner loop hands on exactly the frames of the buffer and leaves its unfinished tail, on any array |
| `ArrayFramer.EndsRight` | src/gdbstub.c:115-135 | so does the loop as written when the first packet is all there is behind its '$' |
| `ArrayFramer.CorrectedReceives` | src/gdbstub.c:67-136 | at every read of every split the corrected loop delivers and leaves what the grammar says |
| `ArrayFramer.ChunkingInvariance` | src/gdbstub.c:67-136 | for every stream, every split into reads and every memory, exactly the grammar's frames come out and exactly the unfinished tail stays |
| `ArrayFramer.AsWrittenReceives` | src/gdbstub.c:67-136 | as written too, when every read leaves a buffer that is drained right whatever memory lies behind it |
| `ArrayFramer.LockstepReadsRight` | src/packet.c:72-95 | reads that end with the packet they complete (lockstep) are of this kind |
| `ArrayFramer.AfterExpected` | src/gdbstub.c:67-136 | when every read meets the grammar, all packets of a run on one array are those of the whole stream, and it ends up holding the tail |
| `StaleMemory.SpacedExact` | src/packet.c:72-95 | any number of packets that do not touch: the code as written is right if and only if the buffer ends with its packet, or nothing is left unfinished and no '$' is among the stale bytes the moves bring in and leave |
| `StaleMemory.SpacedReceivesExact` | src/packet.c:72-95 | so for whole runs on one array, from read to read |
| `StaleMemory.OnePacketExact` | src/packet.c:92-93 | one packet in the buffer, on any array: right if and only if nothing is behind it, or the byte brought in and what is behind do no harm |
| `StaleMemory.UsualReadExact` | src/packet.c:92-93 | the usual read, one packet and more that is no '$' behind it: right for all memory if and only if something came before the packet and the stale byte it leaves is no '$' |
| `StaleMemory.AckBefore` | src/packet.c:92-93 | so a packet with an acknowledgment in front and anything but a '$' behind is always right, though the read does not end with its packet |
| `StaleMemory.AckBehind` | src/packet.c:92-93 | an input: "+$?#3f+" |
| `StaleMemory.InterruptBehind` | src/packet.c:92-93 | an input: "+$vCont;c#a8" and a Ctrl-C |
| `StaleMemory.ZeroedFails` | src/packet.c:92-93 | an input: "$gg#ce+$g#67+" in a zeroed array leaves the stale '$' of the first move, and the next packet is delivered as "$$g#67" |
| `StaleMemory.SecondPacketDropped` | src/packet.c:92-93 | a packet that touches the one before loses its '$' and is never delivered, on any array |
| `DollarBalance.GrammarDollars` | src/packet.c:43-97 | the grammar keeps every '$' of a stream, in its frames and its tail |
| `DollarBalance.DrainBalances` | src/packet.c:80-97 | conservation: the '$' the loop as written delivers, leaves and drops are those that were in the buffer and those it brings in |
| `DollarBalance.RightBalances` | src/packet.c:92-93 | on any array the code as written can be right only if it brings in as many '$' as it drops |
| `DollarBalance.TouchingNeedsStale` | src/packet.c:92-93 | when a '$' follows a packet at once, it can be right only if a stale '$' is brought in |
| `StaleMemory.ShortPacketLost` | src/packet.c:72 | a packet short of its last digit is accepted, and the pop leaves the allocation |
| `PacketBuffer.PacketBuffer.constructor` | src/packet.c:13-20 | an empty buffer of 1024 zeroed bytes |
| `PacketBuffer.PacketBuffer.Enlarge` | src/packet.c:26-31 | only a full buffer doubles, its bytes are kept, and there is room afterwards; the size stays within twice the largest fill (or 1024) |
| `PacketBuffer.PacketBuffer.Fill` | src/packet.c:22-41 | appends what the kernel gave, over whatever lay behind the valid bytes, and keeps the rest of the array; reading nothing means exactly the end of the stream |
| `PacketBuffer.PacketBuffer.SkipToHead` | src/packet.c:47-64 | drops exactly what precedes the first '$', or everything; states the whole array, stale bytes included |
| `PacketBuffer.PacketBuffer.IsComplete` | src/packet.c:43-78 | answers the end test of its rule and sets the end of the packet, or -1; states the whole array |
| `PacketBuffer.PacketBuffer.FindEnd` | src/packet.c:66-77 | the end is two bytes behind the first '#', if the rule's test lets it pass |
| `PacketBuffer.PacketBuffer.PopPacket` | src/packet.c:80-97 | hands out exactly the frame, NUL-terminated, with its last index, and leaves the array the rule's move leaves; reports undefined behaviour |
| `PacketBuffer.PacketBuffer.RemoveFront` | src/packet.c:92-96 | the whole array after the memmove under either rule, and when it leaves the allocation |
| `PacketBuffer.TakeAll` | src/gdbstub.c:115-135 | the loop on the array object is the drain of the specification: same packets, same array, stale bytes included, and undefined exactly when that is |
| `PacketBuffer.ReadOnce` | src/gdbstub.c:67-136 | one read and the loop after it are one step of the recursive receiver, on the whole array |
| `PacketBuffer.ReadStream` | src/gdbstub.c:56-140 | the whole receiving thread from the zeroed array: however the kernel splits a stream, packets and array are those of the specification, and the grammar's when the framer is right at every read |
| `Codec.HexEncodeAt` | src/utils/translate.c:5-13 | digits 2i and 2i+1 are the nibbles of byte i |
| `Codec.HexDecodeEncode` | src/utils/translate.c:5-30 | decoding what was encoded gives the bytes back, for any length |
| `Codec.HexEncodeDecode` | src/utils/translate.c:5-30 | encoding what was decoded gives the text in lower case if and only if all of it was hex digits |
| `Codec.NotHexDecoded` | src/utils/translate.c:15-30 | an input: "zz" |
| `Codec.CharToHexTrick` | src/utils/translate.c:15-20 | the bit trick of char_to_hex computes the arithmetic form on all 256 characters |
| `Codec.NibbleBits` | src/utils/translate.c:9-10 | shift and mask are quotient and remainder by 16 |
| `Codec.JoinNibbles` | src/utils/translate.c:28 | shift and or put two nibbles together |
| `Codec.FlipCaseBits` | src/utils/translate.c:38 | exclusive or with 0x20 is the arithmetic form on all bytes |
| `Codec.HexToStr` | src/utils/translate.c:5-13 | writes the hex text and its NUL in place and touches no other byte of the buffer |
| `Codec.StrToHex` | src/utils/translate.c:22-30 | fills exactly the requested bytes with the decoded text |
| `Codec.UnescapeInPlace` | src/utils/translate.c:32-48 | the result replaces the front of the message in place, is never longer, and nothing at or behind the end changes |
| `Codec.UnescapeOneByte` | src/utils/translate.c:37-44 | one round stores one output byte and moves the read index by one or two |
| `Codec.UnescapeEncoded` | src/utils/translate.c:32-48 | every legal escaped encoding of a byte string, whatever optional escapes it uses, is undone |
| `Codec.EncodedHash` | src/utils/translate.c:37-39 | an encoding can hold a '#' only by escaping 0x03, and the minimal encoding never does |
| `Codec.UnescapeExact` | src/utils/translate.c:36-40 | the byte behind the message makes a difference if and only if the message ends with an escape character that is not itself escaped |
| `Codec.DanglingRead` | src/utils/translate.c:36-40 | an input: one escape character alone becomes the byte behind it, bit 5 flipped |
| `Codec.EncodedNotDangling` | src/utils/translate.c:36-40 | no legal encoding ends so |
| `Codec.ComputeChecksum` | src/utils/csum.c:3-9 | the loop computes the checksum that the three laws of Codec.ChecksumLaws determine |
| `Codec.ChecksumLaws` | src/utils/csum.c:3-9 | nothing sums to 0, a byte to itself, and the checksums of two parts add up modulo 256 |
| `Codec.ChecksumUnique` | src/utils/csum.c:3-9 | no other function of byte strings satisfies these laws |
| `Codec.ChecksumUpdate` | src/utils/csum.c:3-9 | replacing one byte keeps the checksum if and only if the byte is the same |
| `PacketQueue.PopMeaning` | src/pktqueue.c:68-100 | a packet comes out exactly when one is queued; NULL only when empty with shutdown or interrupt set; flags are left alone |
| `PacketQueue.FirstInFirstOut` | src/pktqueue.c:44-100 | what was queued and then pushed comes out in that order |
| `PacketQueue.PacketQueue.constructor` | src/pktqueue.c:6-21 | an empty queue with both flags clear |
| `PacketQueue.PacketQueue.Push` | src/pktqueue.c:44-66 | the linked list afterwards is the old one with one fresh node at its end; a failed allocation changes nothing |
| `PacketQueue.PacketQueue.Pop` | src/pktqueue.c:68-100 | removes the first node and frees exactly that node; list stays acyclic, head and tail null together |
| `PacketQueue.PacketQueue.SignalShutdown` | src/pktqueue.c:102-108 | sets one flag and keeps the queue |
| `PacketQueue.PacketQueue.SignalInterrupt` | src/pktqueue.c:110-116 | sets one flag and keeps the queue |
| `PacketQueue.PacketQueue.CheckInterrupt` | src/pktqueue.c:118-125 | returns the flag and clears it |
| `PacketQueue.PacketQueue.Destroy` | src/pktqueue.c:23-42 | frees every node and its packet, in order, each once, and leaves an empty queue |
| `Connection.FrameRoundTrip` | src/conn.c:162-188 | a built frame is a frame of the grammar if and only if its payload has no '#'; parsing gives the payload back and its checksum is accepted |
| `Connection.CorruptionDetected` | src/gdbstub.c:745-759 | replacing a payload byte of any accepted packet, however its digits are written, is accepted if and only if nothing changed |
| `Connection.KnownReply` | src/conn.c:170-188 | a frame as it is on the wire: "$OK#9a" |
| `Connection.KnownRequest` | src/gdbstub.c:745-759 | "$?#3f" is accepted, "$?#46" is not |
| `Connection.SentIsReceived` | src/conn.c:162-188 | any '#'-free payloads, framed and sent with any '$'-free bytes between, are received as exactly those frames under every split, with nothing left over |
| `Connection.BuildPacket` | src/conn.c:162-188 | the string built in the local array is the payload's frame, or the size assertion fails |
| `Connection.CsumVerify` | src/gdbstub.c:745-759 | accepts exactly the packets whose payload sums to its two digits |
| `Connection.SendStr` | src/conn.c:109-137 | for all poll and write outcomes the bytes sent are a prefix of the string, all of it if and only if the result is success |
| `Connection.SendAllOrReport` | src/conn.c:109-137 | the send machine reports success if and only if every byte went out |
| `Connection.GivesUpOnTime` | src/conn.c:116-121 | polled in vain it gives up exactly when the waits add up to the timeout, for every timeout, 0 included |
| `Connection.SendGoesOn` | src/conn.c:109-137 | as long as no event ends a send, it has written exactly what the writes took and waited 100 ms for each poll in vain since the last of them |
| `Connection.SendMeaning` | src/conn.c:109-137 | for any events: a send returns false at the first that is hopeless (a fatal error, EAGAIN without a timeout, one poll in vain too many), true when the string is out, and stays there; EINTR changes nothing |
| `Connection.Conn.SendPktStr` | src/conn.c:162-188 | one reply goes out, or the size assertion fails and none does |
| `Socket.ExcludesStep` | src/conn.c:139-160 | a thread is inside its send loop exactly when it holds the mutex, kept by every step although no write looks at the mutex |
| `Socket.NeverInterleaved` | src/conn.c:109-160 | from every reachable situation of the two threads and for all outcomes of polls and writes, the output is what each finished send wrote, in turn order, then what the current one has written, never mixed |
| `Socket.SocketOutput` | src/conn.c:109-160 | in every reachable state at most one thread is inside, the output is the turns' prefixes, and a turn wrote its whole string if and only if it returned true |
| `Socket.HolderCanGo` | src/conn.c:139-160 | whoever has the mutex can take a step, whatever its poll comes to |
| `Socket.WhoWaits` | src/conn.c:139-168 | in every reachable state the reader thread gets its send or gives it up at once, and the main thread gets its turn exactly when the reader is outside |
| `Socket.Patience` | src/conn.c:139-168 | the main thread's send gives up after fifty polls in vain, the reader's after the first, and EAGAIN ends the reader's only |
| `RegBuf.DoublingTerminates` | src/regbuf.c:24-26 | the doubling of a size_t, wrap-around included, reaches a request if and only if the request is at most 2^63 |
| `RegBuf.RegBuf.constructor` | src/regbuf.c:5-15 | eight bytes, or no buffer |
| `RegBuf.RegBuf.Get` | src/regbuf.c:17-30 | the size is the least eight times a power of two that fits, below twice the request once grown; a buffer that fits is kept |
| `Registers.LayoutsAgree` | src/gdbstub.c:249-344 | index times width equals the prefix sum for all registers if and only if all widths are equal |
| `Registers.ParsedOfHex` | src/gdbstub.c:314-345 | a payload that is the registers' hex, for any widths, parses to these registers |
| `Registers.AllOrNothing` | src/gdbstub.c:284-382 | if write-backs succeed: OK leaves exactly the registers the payload stands for, every other reply, wrong length and failed allocation included, exactly the old ones; E22 comes exactly for a wrong length |
| `Registers.RollbackExact` | src/gdbstub.c:362-370 | without that assumption the old registers are back if and only if each restore that failed had nothing to undo |
| `Registers.RefusalExact` | src/gdbstub.c:292-314 | E22 for a wrong length, E12 without memory, for any target |
| `Registers.ReplyExact` | src/gdbstub.c:316-381 | otherwise the error of the first access that fails, reads before writes, and OK when none does |
| `Registers.RollbackFails` | src/gdbstub.c:362-370 | an input: two registers, the second write and the restore of the first fail, and the first stays new |
| `Registers.WriteBackIsNeutral` | src/gdbstub.c:284-382 | writing the registers' own hex changes none, whatever accesses fail |
| `Registers.ReadAfterWrite` | src/gdbstub.c:284-382 | after a successful G the registers' hex is its payload in lower case if and only if that was all hex digits |
| `Registers.ParseAndBackup` | src/gdbstub.c:314-345 | the two storage arrays hold the parsed and the current value of every register at its prefix-sum offset, or the first read error is returned |
| `Registers.Commit` | src/gdbstub.c:347-360 | the registers before the first failed write are new, all others old |
| `Registers.Rollback` | src/gdbstub.c:362-370 | restores from the backup exactly the registers written before the failure, ignoring results |
| `Registers.CommitOrRollBack` | src/gdbstub.c:347-382 | commit, or rollback with the first error, and one reply |
| `Registers.ProcessRegWrite` | src/gdbstub.c:284-382 | the loops over arrays refine the specification of G for every count, widths, payload and failure pattern, and every path sends exactly one reply |
| `RegisterRead.PlaceAll` | src/gdbstub.c:237-255 | the buffer holds each register's hex at index times width, later registers over earlier ones, or the first read error is returned |
| `RegisterRead.ProcessRegRead` | src/gdbstub.c:233-258 | one reply on every path: the C string left in the buffer, or the first read error; none when the string is too long or there is none |
| `RegisterRead.ReplyRightIffUniform` | src/gdbstub.c:249-250 | g answers with the registers' hex in order, for all contents, if and only if the widths are uniform |
| `RegisterRead.UnevenReplyWrong` | src/gdbstub.c:249-250 | an input: a two-byte and a one-byte register |
| `RegisterRead.ReadErrorExact` | src/gdbstub.c:247-257 | a register that cannot be read: the first error is the reply, whatever was read before |
| `RegisterRead.ReadThenWriteBack` | src/gdbstub.c:233-382 | for uniform widths, sending the g reply back as G changes no register |
| `RegisterRead.WriteThenRead` | src/gdbstub.c:233-382 | for uniform widths, g after a successful G gives the payload in lower case if and only if it was all hex digits |
| `LittleEndian.ToFromBytes` | emu/src/emu.c:10-21 | bytes survive the trip through their number |
| `LittleEndian.FromToBytes` | emu/src/emu.c:10-21 | a number survives n bytes modulo 2^(8n) |
| `LittleEndian.ToBytesAt` | emu/src/emu.c:17-21 | byte i is the value divided by 256^i, modulo 256 |
| `LittleEndian.LoadStore` | emu/src/emu.c:10-21 | a read after a write at the same address gives the value modulo 2^(8n), for any width |
| `LittleEndian.StoreLoad` | emu/src/emu.c:10-21 | writing back what was read changes no byte |
| `LittleEndian.LoadElsewhere` | emu/src/emu.c:10-21 | a read disjoint from a write sees what it saw before |
| `LittleEndian.StoresCommute` | emu/src/emu.c:17-21 | disjoint writes commute |
| `LittleEndian.ReadLen` | emu/src/emu.c:10-15 | the loop computes the little-endian value, for any width |
| `LittleEndian.WriteLen` | emu/src/emu.c:17-21 | the loop stores the little-endian bytes and nothing else, for any width |
| `Stepping.ContinueIsSteps` | emu/src/emu.c:435-461 | a run loop over any machine equals that many single steps and stops for the first reason there is |
| `Stepping.RightEndUnique` | emu/src/emu.c:435-461 | these facts leave only one end the run can have |
| `Stepping.ContinueStable` | emu/src/emu.c:441-443 | when the halt flag would be seen does not change where an uninterrupted run ends |
| `Riscv.FetchIsWord` | emu/src/emu.c:446 | every fetch lies within memory and gives a 32-bit word |
| `Riscv.StepKeeps` | emu/src/emu.c:463-476 | a step keeps the machine well-formed, its code size and its breakpoint |
| `Riscv.ZeroRegister` | emu/src/emu.c:255-256 | what x0 held never matters to an instruction |
| `Riscv.JalrExact` | emu/src/emu.c:223-231 | jalr jumps to the manual's target if and only if the registers differ or the two targets coincide |
| `Riscv.JalrFails` | emu/src/emu.c:223-231 | an input: jalr x1, 0(x1) |
| `Riscv.LoadWordExact` | emu/src/emu.c:74-86 | an lw in memory leaves the manual's sign-extended value in rd if and only if the word's top bit is clear |
| `Riscv.LoadWordFails` | emu/src/emu.c:74-86 | an input: lw of the word of all ones |
| `Riscv.StoreLoadDouble` | emu/src/emu.c:87-166 | sd then ld at one address restores the whole stored register, for any encodings of the two |
| `Riscv.StoreLoadWord` | emu/src/emu.c:81-161 | sw then lw gives the stored register's low 32 bits, zero-extended |
| `Riscv.ContinueIsStepI` | emu/src/emu.c:435-476 | emu_cont ends where that many emu_stepi end, at the end of code, breakpoint, halt, unimplemented instruction or tohost byte, whichever is first, and no other end fits these facts |
| `Stepping.StopsIfVisits` | emu/src/emu.c:442-443 | a run is stopped for a reason if and only if it comes by a machine that has it |
| `Riscv.DeletedBreakpointStops` | emu/src/emu.c:489-500 | after the breakpoint that is set has been deleted it still stops a continue, at once or later, if and only if the run comes to address 0 |
| `Riscv.DeletionExact` | emu/src/emu.c:489-500 | a continue after the deletion runs as if no breakpoint had ever been set if and only if that run never comes to address 0 |
| `Riscv.DeletedStopsLater` | emu/src/emu.c:489-500 | an input: jal x0, -4 at address 4 is stopped after its first instruction |
| `Riscv.NeverSetNeverStops` | emu/src/emu.c:329-336 | with no breakpoint ever set none stops a run of any length |
| `Runs.ContinueMeans` | emu/src/emu.c:435-461 | a continue goes on from instruction to instruction until the end of the code, the breakpoint, the halt, an instruction that is wild or not implemented, or one after which byte 0xffc is set, and it comes to one of them: end, step count and reason |
| `Runs.SetOrRefused` | emu/src/emu.c:478-487 | a breakpoint is set if and only if it is a software one and none is set; a refusal changes nothing |
| `Runs.SetStops` | emu/src/emu.c:442-443 | a continue is stopped by the breakpoint just set if and only if its run comes to that address within the code and the budget |
| `Runs.StoppedThere` | emu/src/emu.c:442-443 | where it stops, the instruction at the address is still to be run |
| `Runs.BreakpointStops` | emu/src/emu.c:442-443 | it stops a continue if and only if the same run without any breakpoint would come to its address |
| `Runs.SetThenDeleted` | emu/src/emu.c:478-500 | deleting the address clears it and another can be set; deleting any other address leaves it |
| `Encoding.DecodeR` | emu/src/emu.c:258-263 | every field of an instruction laid out as the manual's R format is decoded as encoded |
| `Encoding.DecodeI` | emu/src/emu.c:78 | so are those of the I format, the immediate sign-extended |
| `Encoding.DecodeS` | emu/src/emu.c:148-149 | so are those of the S format, whose immediate is split in two |
| `Encoding.DecodeU` | emu/src/emu.c:123 | so are those of the U format, the immediate in place and sign-extended |
| `Encoding.DecodeJ` | emu/src/emu.c:239-243 | so are those of the J format, whose offset bits are shuffled |
| `Bits.ImmIBits` | emu/src/emu.c:78 | bit by bit for every word: bits 31:20, the last of them repeated upwards |
| `Bits.ImmSBits` | emu/src/emu.c:148-149 | bits 31:25 and 11:7, the last of them repeated upwards |
| `Bits.ImmUBits` | emu/src/emu.c:123 | bits 31:12 in place, zeros below, the last repeated upwards |
| `Bits.ImmJBits` | emu/src/emu.c:239-243 | bit 0 is zero; 10:1 are bits 30:21, 11 is bit 20, 19:12 in place, and bit 31 from there on |
| `Bits.Signed32Bits` | emu/src/emu.c:136 | a cast to int32_t keeps the lower 32 bits and repeats the last of them |
| `Bits.U64Bits` | emu/src/emu.c:181 | a conversion to uint64_t keeps the lower 64 bits |
| `Bits.SumRipples` | emu/src/emu.c:181 | every bit of a sum is what a ripple-carry adder puts out |
| `Instructions.StepFetches` | emu/src/emu.c:463-476 | a step takes the four bytes at the pc, lowest first, advances by 4 and executes them with x0 cleared |
| `Instructions.StepOutside` | emu/src/emu.c:468 | outside the code it does nothing |
| `Instructions.Add` | emu/src/emu.c:174-192 | add: the sum modulo 2^64 in rd, everything else unchanged |
| `Instructions.AddBits` | emu/src/emu.c:174-192 | bit for bit the output of a ripple-carry adder |
| `Instructions.Addw` | emu/src/emu.c:202-221 | addw: the sum's low 32 bits, sign-extended |
| `Instructions.Addi` | emu/src/emu.c:100-107 | addi: the sum with the sign-extended immediate |
| `Instructions.Slti` | emu/src/emu.c:108-111 | slti: 1 if less than the immediate, both signed, else 0 |
| `Instructions.Addiw` | emu/src/emu.c:128-143 | addiw: the low 32 bits of the sum with the immediate, sign-extended |
| `Instructions.Lui` | emu/src/emu.c:194-200 | lui: the immediate times 2^12 |
| `Instructions.Auipc` | emu/src/emu.c:120-126 | auipc: the immediate times 2^12 added to the instruction's own address |
| `Instructions.LoadInstr` | emu/src/emu.c:74-98 | lw and ld: the bytes at rs1 plus the immediate modulo 2^64, zero-extended, or outside memory |
| `Instructions.LoadedBytes` | emu/src/emu.c:10-15 | byte k of a loaded value is the k-th byte in memory, and nothing lies above |
| `Instructions.StoreInstr` | emu/src/emu.c:145-172 | sb, sw and sd: the low bytes of rs2 at the address, or outside memory |
| `Instructions.StoredBytes` | emu/src/emu.c:17-21 | memory after a store, byte by byte |
| `Instructions.Jal` | emu/src/emu.c:233-246 | jal: on from the instruction's own address plus the offset, the address behind it in rd |
| `Instructions.Jalr` | emu/src/emu.c:223-231 | jalr: on at the register, or the link just written to it, plus the immediate with bit 0 cleared |
| `Instructions.NotImplemented` | emu/src/emu.c:285-322 | exactly these opcodes, funct3 and funct7 are implemented; any other word is reported with only pc and x0 touched |
| `Emulator.BoundsExact` | emu/src/emu.c:418-430 | the bounds test admits exactly the ranges in memory and those whose end wraps around to one |
| `Emulator.BoundsFail` | emu/src/emu.c:418-430 | an input: two bytes from the last address on |
| `Emulator.RegRoundTrip` | emu/src/emu.c:384-413 | a register written is read back as written, and every other register, the pc included, as before |
| `Emulator.Emu.constructor` | emu/src/emu.c:329-372 | the initial machine: code, zeroes, stack pointer, no breakpoint |
| `Emulator.Emu.Opcode3` | emu/src/emu.c:74-98 | loads change the destination register as the instruction's meaning says and nothing else |
| `Emulator.Emu.Opcode13` | emu/src/emu.c:100-118 | addi and slti, and nothing else |
| `Emulator.Emu.Opcode17` | emu/src/emu.c:120-126 | auipc, and nothing else |
| `Emulator.Emu.Opcode1b` | emu/src/emu.c:128-143 | addiw, and nothing else |
| `Emulator.Emu.Opcode23` | emu/src/emu.c:145-172 | stores change exactly the addressed bytes |
| `Emulator.Emu.Opcode33` | emu/src/emu.c:174-192 | add, and nothing else |
| `Emulator.Emu.Opcode37` | emu/src/emu.c:194-200 | lui, and nothing else |
| `Emulator.Emu.Opcode3b` | emu/src/emu.c:202-221 | addw, and nothing else |
| `Emulator.Emu.Opcode67` | emu/src/emu.c:223-231 | jalr as coded |
| `Emulator.Emu.Opcode6f` | emu/src/emu.c:233-246 | jal |
| `Emulator.Emu.ExecInst` | emu/src/emu.c:248-327 | dispatch on the arrays refines the instruction function |
| `Emulator.Emu.StepInst` | emu/src/emu.c:463-476 | one step on the arrays refines the step function |
| `Emulator.Emu.Cont` | emu/src/emu.c:435-461 | the loop on the arrays, halted at any round, ends as the run function says and reports shutdown exactly for a tohost byte |
| `Emulator.Emu.SetBp` | emu/src/emu.c:478-487 | sets the one software breakpoint, or refuses |
| `Emulator.Emu.DelBp` | emu/src/emu.c:489-500 | removes a matching breakpoint and always reports success |
| `Emulator.Emu.ReadReg` | emu/src/emu.c:384-397 | the register's bytes, EFAULT above 32, and an index before the array exactly for a negative number |
| `Emulator.Emu.WriteReg` | emu/src/emu.c:399-413 | changes exactly that register, or nothing with EFAULT; an index before the array exactly for a negative number |
| `Emulator.Emu.ReadMem` | emu/src/emu.c:415-423 | the addressed bytes, EFAULT, or a copy outside memory |
| `Emulator.Emu.WriteMem` | emu/src/emu.c:425-433 | changes exactly the addressed bytes, nothing, or a copy outside memory |
| `MemoryCommands.ProcessMemRead` | src/gdbstub.c:417-435 | the path from memory to the reply text refines the specification of m, with one reply on every path |
| `MemoryCommands.ProcessMemWrite` | src/gdbstub.c:437-462 | reply and memory of M for every address, length and content, what lies behind a text that is too short included; one reply on every path |
| `MemoryCommands.MemWriteExact` | src/gdbstub.c:437-462 | M changes memory if and only if the range is in memory and there is enough to read, and then answers OK |
| `MemoryCommands.ShortContentAccepted` | src/gdbstub.c:437-462 | an input: M of one byte with no text reads the NUL and a checksum digit, and is answered OK |
| `MemoryCommands.ShortContentExact` | src/gdbstub.c:437-462 | a text that is too short is answered OK if and only if the range is in memory and at most four characters are missing |
| `MemoryCommands.ProcessMemXwrite` | src/gdbstub.c:464-486 | reply and memory of X, unescaped inside the packet's own bytes; one reply on every path |
| `MemoryCommands.XWriteExact` | src/gdbstub.c:464-486 | X changes memory if and only if the range is in memory and the bytes are as many as announced |
| `MemoryCommands.XAnswerExact` | src/gdbstub.c:484-485 | an X with as many bytes as announced is answered OK unless the copy leaves memory, and OK means written if and only if the range is in memory |
| `MemoryCommands.XRefusedSaysOk` | src/gdbstub.c:484-485 | an input: one byte for the address behind memory is answered OK and written nowhere, where M is answered with an error |
| `MemoryCommands.FindColon` | src/gdbstub.c:470-474 | finds the first ':' of the payload unless a NUL comes first |
| `MemoryCommands.WriteThenRead` | src/gdbstub.c:417-462 | M then m of the same range gives the text in lower case if and only if it was all hex digits, whatever follows it in the packet |
| `MemoryCommands.WriteElsewhere` | src/gdbstub.c:437-462 | M changes no byte outside its range, nor what m answers for a disjoint range |
| `MemoryCommands.XCarries` | src/gdbstub.c:464-486 | a header and any legal encoding of a byte string carry exactly that string |
| `Xfer.ProcessXfer` | src/gdbstub.c:507-520 | the C string sent is the marker and the piece of the document, one reply for every offset and length with defined behaviour |
| `Xfer.ProgressExact` | src/gdbstub.c:512-518 | a piece makes progress or is the last if and only if at least two bytes were asked for or nothing was left |
| `Xfer.ReplySendable` | src/conn.c:165-170 | every reply meets the sender's size assertion and has no '#' if the document has none |
| `Xfer.FetchRight` | src/gdbstub.c:507-520 | whatever lengths of at least two a client asks for, it has gathered the next part of the document, and is done exactly when it has the rest |
| `Xfer.Reassembly` | src/gdbstub.c:507-520 | a client that starts at 0 and goes on until 'l' ends with exactly the document |
| `Xfer.SingleBytesStall` | src/gdbstub.c:512-518 | a client that asks for single bytes never gets any |
| `MainLoop.Process` | src/gdbstub.c:761-881 | a handler replies or asks for the target to run, never both and never neither; which request does what is Requests.EventsExact and the rows after it |
| `MainLoop.RunSnoc` | src/gdbstub.c:941-987 | a run can be extended packet by packet |
| `MainLoop.FailuresCounted` | src/gdbstub.c:952-970 | the failure count is the trailing run of bad packets, stays below 50 while the loop goes on, and the loop returns false if and only if 50 bad packets came in a row |
| `MainLoop.AckDiscipline` | src/gdbstub.c:953-955 | exactly one '+' or '-' per popped packet, by its checksum, up to and including the accepted QStartNoAckMode, none after |
| `MainLoop.AckedCountMeaning` | src/gdbstub.c:600-602 | which packet is the last acknowledged one |
| `MainLoop.NoAckMode` | src/gdbstub.c:600-602 | no-ack mode is on if and only if some popped packet started it, so it never reverts |
| `MainLoop.OneReply` | src/gdbstub.c:761-988 | one reply per accepted packet, at once or after the run it resumed; none for a rejected packet or a run that ends without resuming |
| `MainLoop.RepliesInOrder` | src/gdbstub.c:761-988 | the replies sent are those of the popped packets, in their order, and nothing else |
| `MainLoop.RepliesConserved` | src/gdbstub.c:761-988 | replies are accepted packets less silent runs less failed assertions |
| `MainLoop.ReplyConservation` | src/gdbstub.c:761-988 | on every run without a failed assertion, frames sent equal accepted packets less silent runs |
| `MainLoop.AbortStops` | src/gdbstub.c:761-881 | nothing is processed behind a packet whose handler's assertion failed |
| `Session.RegsOfWithRegs` | emu/src/emu.c:384-413 | registers written one by one through the target's operations are the registers then read through them |
| `Session.SessionIsLoop` | src/gdbstub.c:918-988 | with the real handlers and the emulator in place, a session is a run of the main loop, so all theorems about those hold of it |
| `Session.SessionReplies` | src/gdbstub.c:761-988 | on every session without a failed assertion the real handlers' replies are the accepted packets less the silent runs |
| `Session.SilentExactly` | src/gdbstub.c:883-906 | a packet goes without reply if and only if it is an accepted continue in which the guest wrote its tohost byte |
| `Session.HandlerEffect` | src/gdbstub.c:761-881 | every handler changes the machine by an effect that can be told from its packet alone |
| `Session.ServedEffect` | src/gdbstub.c:761-906 | so does every packet, its run included |
| `Session.MachineIsFold` | src/gdbstub.c:918-988 | after any session memory, registers, pc and breakpoint are the fold of the effects of the packets processed, in order |
| `Session.ReadsLastWrite` | src/gdbstub.c:417-486 | a session that writes a range with M or X, handles any packets that leave the range alone, runs of the guest among them, and reads it with m sends exactly the bytes written, behind its acknowledgment if these are on |
| `Session.SessionSnoc` | src/gdbstub.c:941-987 | a session can be extended packet by packet |
| `Session.SessionHashFree` | src/gdbstub.c:761-988 | whatever a session sends has no '#', if the description and the two texts that are given have none |
| `Session.AbortedNothing` | src/gdbstub.c:761-881 | an assertion fails only in packets that have no effect |
| `Session.LoadRegs` | emu/src/emu.c:384-397 | the registers as the generic commands read them from the emulator |
| `Session.StoreRegs` | emu/src/emu.c:399-413 | and as they write them |
| `Session.Stub.ReadAll` | src/gdbstub.c:233-258 | g on the emulator answers with its registers' hex, whatever was in the buffer |
| `Session.Stub.WriteAll` | src/gdbstub.c:284-382 | G on the emulator: reply and all registers |
| `Session.Stub.ReadSingle` | src/gdbstub.c:260-282 | p: one reply, or a failed assertion or bad index |
| `Session.Stub.WriteSingle` | src/gdbstub.c:384-415 | P: one reply and one register |
| `Session.Stub.DelBreakPoint` | src/gdbstub.c:697-713 | z: reply and breakpoint |
| `Session.Stub.SetBreakPoint` | src/gdbstub.c:715-731 | Z: reply and breakpoint |
| `Session.Stub.SetCpu` | src/gdbstub.c:733-743 | H: one reply, or a failed assertion |
| `Session.Stub.ProcessQuery` | src/gdbstub.c:526-586 | q: one reply on every path that does not end the program, and which |
| `Session.Stub.ProcessXferQuery` | src/gdbstub.c:489-524 | qXfer: a piece, an empty reply, or a failed assertion |
| `Session.Stub.ProcessGeneralSet` | src/gdbstub.c:588-609 | no-ack mode is entered exactly for QStartNoAckMode, and every Q packet is answered once |
| `Session.Stub.ProcessVPacket` | src/gdbstub.c:674-695 | the v packets: one reply or one run |
| `Session.Stub.ProcessVCont` | src/gdbstub.c:622-646 | one action: a run, or E01 |
| `Session.Stub.AnswerMemory` | src/gdbstub.c:783-875 | m, M and X reach their handlers with the packet's own text and bytes |
| `Session.Stub.AnswerRegisters` | src/gdbstub.c:776-851 | g, G, p and P reach theirs |
| `Session.Stub.ProcessAnswered` | src/gdbstub.c:776-875 | each request whose operation is missing is answered E01, every other by its handler |
| `Session.Stub.ProcessPacket` | src/gdbstub.c:761-881 | the dispatcher with its real handlers refines its specification: replies, event, no-ack mode and machine; the rows of Requests and DataRequests say what that is |
| `Session.Stub.HandleEvent` | src/gdbstub.c:883-906 | the target runs as the emulator's run function says |
| `Session.Stub.HandlePacket` | src/gdbstub.c:952-987 | one loop body refines one step of the session |
| `Session.Stub.RunLoop` | src/gdbstub.c:918-988 | the loop on its objects refines the session the theorems are about |
| `Requests.EventsExact` | src/gdbstub.c:761-881 | for any target a packet runs it if and only if it is a c or a vCont;c with cont there, steps it if and only if it is an s or a vCont;s with stepi there, and detaches if and only if it is a D |
| `Requests.NoAckExact` | src/gdbstub.c:588-610 | it turns acknowledgments off if and only if it is a QStartNoAckMode |
| `Requests.ContinueRequest` | src/gdbstub.c:209-219 | c, from the packet's bytes to the session after it: the machine where the run ends, S05, or the end of the loop without a reply after a tohost write; E01 without cont |
| `Requests.StepRequest` | src/gdbstub.c:221-231 | s: one instruction and S05; E01 without stepi |
| `Requests.VContRequest` | src/gdbstub.c:622-644 | vCont;c and vCont;s likewise, E01 for any other action |
| `Requests.VRequest` | src/gdbstub.c:663-695 | vCont? lists the actions there are, vCont alone is a null argument, any other name gets an empty reply |
| `Requests.FixedRequests` | src/gdbstub.c:815-817 | S05 for ?, OK for T |
| `Requests.DetachRequest` | src/gdbstub.c:818-822 | D is answered OK and ends the loop with true |
| `Requests.GeneralSetRequest` | src/gdbstub.c:588-610 | QStartNoAckMode is answered OK and acknowledgments are off from then on; any other Q gets an empty reply |
| `Requests.LackingRequest` | src/gdbstub.c:776-875 | E01 and nothing else for every request whose operation is missing |
| `Requests.UnknownRequest` | src/gdbstub.c:876-878 | an empty reply for every other character and for an empty packet |
| `Requests.RejectedPacket` | src/gdbstub.c:952-969 | a wrong checksum: a -, one more failure, and the end of the loop with false at the fiftieth in a row |
| `Requests.SetBreakRequest` | src/gdbstub.c:715-731 | Z sets the breakpoint at the address asked for and answers OK, or changes nothing and answers E22 |
| `Requests.DelBreakRequest` | src/gdbstub.c:697-713 | z answers OK and clears the breakpoint if it is at that address |
| `Requests.SetCpuRequest` | src/gdbstub.c:733-743 | H answers OK, unless a g has no number |
| `DataRequests.ReadRequest` | src/gdbstub.c:417-435 | m: the hex of the addressed bytes, E14 when the range is refused, for every address and length |
| `DataRequests.WriteRequest` | src/gdbstub.c:437-462 | M: each addressed byte is the value of its two characters and all others stay; E14 when refused |
| `DataRequests.XRequest` | src/gdbstub.c:464-486 | X: the addressed bytes are those any legal encoding stands for; OK without effect when refused |
| `DataRequests.RegisterRequest` | src/gdbstub.c:260-282 | p: the eight bytes of that register, lowest first, in hex; E14 behind the last |
| `DataRequests.SetRegisterRequest` | src/gdbstub.c:384-415 | P: the number its sixteen digits spell goes to that register |
| `DataRequests.BadRegisterRequest` | src/gdbstub.c:397 | any other number of digits fails an assertion |
| `DataRequests.RegistersRequest` | src/gdbstub.c:233-258 | g: registers 0 to 31 and the pc, eight bytes each, lowest first |
| `DataRequests.SetRegistersRequest` | src/gdbstub.c:284-382 | G: all 33 values its 528 digits spell; E22 and E12 otherwise |
| `DataRequests.FixedQuery` | src/gdbstub.c:553-583 | 1, OK and l for qAttached, qSymbol and qsThreadInfo |
| `DataRequests.EmptyQuery` | src/gdbstub.c:539-586 | an empty reply for any name that is not known, and for qC without get_cpu |
| `DataRequests.GivenQuery` | src/gdbstub.c:539-582 | the given text for qC and qfThreadInfo |
| `DataRequests.SupportedQuery` | src/gdbstub.c:545-552 | the features, with qXfer exactly when there is a description |
| `DataRequests.XferRequest` | src/gdbstub.c:489-524 | the marker and the next bytes of the description from the offset, as many as the length leaves room for |
| `DataRequests.XferRefused` | src/gdbstub.c:489-524 | an empty reply for any other object, a failed assertion without numbers |
| `Protocol.DecimalMeans` | src/gdbstub.c:255 | the digits of an error number stand for it, with no zero in front |
| `Protocol.Int32Means` | src/gdbstub.c:476 | the cast to int is the one int with the same lower 32 bits |
| `Pipeline.PacketsInOrder` | src/gdbstub.c:70-140 | in every reachable state of every interleaving: popped, destroyed, queued and in-hand packets are, in order, those taken less those dropped, and with those still in the buffer they are the frames of the bytes received |
| `Pipeline.FreedOnce` | src/gdbstub.c:115-135 | every packet taken is either live or freed exactly once, by main, by the reader's failure path or by destroy; after the close none is live |
| `Pipeline.WakesUp` | src/pktqueue.c:53-125 | no lost wakeup; turns without a packet, plus one if the flag is set, never exceed the interrupts signalled, which are the 0x03 bytes received |
| `Pipeline.ReaderAcks` | src/gdbstub.c:119-133 | the reader acknowledges packets in the order it takes them, each at most once, and only such as have been pushed: none dropped and none in its hand |
| `Pipeline.AcksExact` | src/gdbstub.c:125-128 | for every stream: no interleaving and no split has the reader acknowledge a packet with a wrong checksum, if and only if the stream has none |
| `Pipeline.NoLateAckExact` | src/gdbstub.c:125-128 | for every stream: none has the reader acknowledge while acknowledgments are off, if and only if no packet of the stream turns them off |
| `EndToEnd.BadPacketAcked` | src/gdbstub.c:125-128 | an input: "$#01" is acknowledged |
| `EndToEnd.NoAckAcked` | src/gdbstub.c:125-128 | an input: QStartNoAckMode itself is acknowledged after acknowledgments are off |
| `Pipeline.InterruptsExact` | src/gdbstub.c:103-112 | only what lies between packets has interrupted if and only if no packet and no unfinished one holds a 0x03 |
| `EndToEnd.WriteInterrupts` | src/gdbstub.c:103-112 | an input: an X that carries one '#' is escaped as 7d 03 and interrupts |
| `Interrupts.HaltsExact` | src/gdbstub.c:103-112 | over every run: calls of on_interrupt, with the one due, are the 0x03 bytes scanned while the main thread is inside cont; queue signals, with the one due, are all 0x03 bytes scanned, each after its call |
| `Interrupts.ContinuingFor` | src/gdbstub.c:886-892 | inside cont the main thread is there for an accepted c or vCont;c |
| `Interrupts.CtrlCHalts` | src/gdbstub.c:103-112 | an input: "$c#63", then a Ctrl-C while the target runs, and on_interrupt has been called once |
| `Pipeline.LoopSeesPackets` | src/gdbstub.c:941-987 | in every interleaving the main loop is in the state its specification gives for the packets it popped, in order |
| `Pipeline.RepliesConserved` | src/gdbstub.c:941-987 | so reply conservation and the failure count hold in every reachable state without a failed assertion |
| `Pipeline.PacketCount` | src/gdbstub.c:70-140 | in every reachable state the packets received are as many as those popped, dropped, destroyed, queued, in hand and still in the buffer |
| `Pipeline.EverythingProcessed` | src/gdbstub.c:941-946 | a clean exit has processed exactly the packets of the bytes received, in order, if and only if none was dropped and none is left queued, destroyed, in hand or in the buffer |
| `Pipeline.QuietLeavesNothing` | src/gdbstub.c:941-946 | which is so after any run without 0x03 and without failed allocations |
| `Pipeline.InterruptedPop` | src/gdbstub.c:941-946 | an input: the byte 0x03 and a first pop reach a state with a NULL pop and the reader still reading |
| `Pipeline.CleanExitFails` | src/gdbstub.c:941-946 | so for every target a reachable clean exit leaves a packet queued |
| `Pipeline.PacketLeftBehind` | src/gdbstub.c:941-946 | from every NULL pop with the reader still reading or a packet queued, a schedule leads to such an exit |
| `Pipeline.CleanExitComplete` | src/gdbstub.c:941-946 | after a NULL pop no clean exit leaves a packet behind if and only if the reader has stopped reading and the queue is empty |
| `Pipeline.NoDeadlock` | src/gdbstub.c:941-1005 | in every reachable state before the end some thread can take a step that is no spurious wakeup or fruitless poll, and in the close, past the store of thread_stop, one in which the peer has no part |
| `Pipeline.CloseCompletes` | src/gdbstub.c:991-1005 | from every reachable state in which gdbstub_run has returned, a run leads to the end in which the peer neither sends nor hangs up |
| `Pipeline.InvStep` | src/gdbstub.c:56-140 | every step of either thread keeps the joint invariant |
| `Pipeline.ReachableInv` | src/gdbstub.c:56-140 | the joint invariant holds in every reachable state |
| `Pipeline.FindsFramesStep` | src/packet.c:22-97 | every step of the reader keeps: frames taken, then frames in the buffer, are the frames of what was received |
| `Pipeline.InOrderReader` | src/gdbstub.c:115-135 | no step of the reader loses, duplicates or reorders a packet |
| `Pipeline.InOrderMain` | src/gdbstub.c:941-1005 | nor does a step of the main thread |
| `Pipeline.MainFreesStep` | src/gdbstub.c:957-977 | the main thread frees exactly the packets it has finished with |
| `Pipeline.LoopRunsStep` | src/gdbstub.c:941-987 | every step of the main thread keeps the loop in the state of its specification |
| `Pipeline.WakesReader` | src/pktqueue.c:62-116 | pushes and signals of the reader wake a waiting main thread |
| `Pipeline.WakesMain` | src/pktqueue.c:68-125 | the main thread waits only when there is nothing to do |
| `EndToEnd.XFramable` | src/gdbstub.c:464-486 | an X packet can be framed if and only if its encoding has no '#', which holds unless an optional escape of 0x03 was used |
| `EndToEnd.XDelivered` | src/gdbstub.c:464-486 | any bytes in any legal encoding, framed among other packets and split in any way, reach write_mem as exactly those bytes |
| `EndToEnd.EveryPacketAnswered` | src/gdbstub.c:918-988 | whatever is sent, however threads interleave and whatever interrupts them, a clean exit that leaves no packet anywhere has processed exactly the packets sent, in order, and answered each once but for silent runs |
| `EndToEnd.EveryEffectHappens` | src/gdbstub.c:918-988 | with the emulator as the target, such a run has the replies and final state of the session of the packets sent, and the machine has had exactly their effects, in order |
| `EndToEnd.HandedCarried` | src/conn.c:109-188 | in every run of the two threads at the socket in which the main thread hands over given replies and marks, in order, and the reader only '+', the finished turns are for exactly those |
| `EndToEnd.HandoverExists` | src/conn.c:109-188 | for whatever the main loop sends there is such a run, with every send whole |
| `EndToEnd.TurnsCarry` | src/conn.c:109-188 | the frames in the socket's output are exactly the main thread's replies, whatever acknowledgments of the reader lie between its turns |
| `EndToEnd.TurnsWeigh` | src/conn.c:109-188 | a reply cut short is missing from the frames in the output, whatever follows it |
| `EndToEnd.ClientReceives` | src/conn.c:109-188 | from every reachable socket, under every split, a client receives exactly the main thread's replies, in order and whole, if and only if every send of a reply returned true |
| `EndToEnd.SessionReceived` | src/gdbstub.c:918-988 | so for the replies of any session, which are as many as the packets accepted less the silent runs |

## Left out

- RegBuf.RegBuf.Get: requires a request of at most 2^63 bytes, because for a larger one the source's loop does not end (`RegBuf.DoublingTerminates`).
- RegisterRead.ProcessRegRead: requires every register's digits to fit the 4096-byte packet buffer; beyond that the source overruns its stack buffer, which is undefined behaviour.
- Registers.AllOrNothing: assumes that a failed write changes nothing, registers do not alias, and restoring succeeds; `Registers.RollbackExact` drops the last assumption.
- Pipeline.CleanExitComplete: like `Pipeline.NoDeadlock`, `Pipeline.CloseCompletes`, `Pipeline.AcksExact` and `Pipeline.NoLateAckExact` it is stated for the corrected framer; as written a pop can be undefined behaviour, which has no step.
- Undefined behaviour (an access outside an allocation, an unterminated string) and failed assertions are outcomes that end a run; nothing is said about what happens after them.
- Sockets, `poll`, real time and thread creation: reads, write results and scheduling are nondeterministic; `pktbuf_init` and `pthread_create` are taken to succeed, and `realloc`, the packet's `calloc` and the `malloc` of `m` and `M` not to fail.
- The width of C's `int` for buffer sizes: `cap` and `size` are unbounded numbers.
- `sscanf`, `sprintf` and `strtok`: addresses, lengths and offsets come parsed; a malformed argument is an answer whose assertion fails, and error replies carry the code and not its text.
- The text of `qC` and `qfThreadInfo`, and what `set_cpu` does: given per packet.
- `Session` has one target, the emulator. The generic register commands work on a copy of its registers, read and written back through its own operations, which never fail; `Registers` and `RegisterRead` have targets of any widths and failures.
- A second call of `gdbstub_run` on a stub that is still open.
- Promptness of an interrupt: `on_interrupt` may come just after `cont` has returned, and `emu_cont` may erase a halt set just before it; a halt is seen after any number of rounds. `on_interrupt` is taken to be present.
- In `Pipeline` the acknowledgment and replies of a packet that continues the target are logged when the run returns; the order within the main thread's output is the same.
- In `Pipeline` the byte that a pop as written brings in is free; which byte the array has there is the subject of `ArrayFramer` and `StaleMemory`.
- An exact condition for packets that touch: `DollarBalance.TouchingNeedsStale` is a necessary one, `StaleMemory.SecondPacketDropped` a family that fails on every array.
- One step system for the reader, the main thread and the socket together: `Pipeline` and `Socket` are separate ones. That the turns at the socket are for the main loop's replies (`Carried`) is a hypothesis of `EndToEnd.ClientReceives` and `EndToEnd.SessionReceived`; `EndToEnd.HandedCarried` proves it of every socket run in which the main thread hands those replies over in order, and `EndToEnd.HandoverExists` that there is one.
- Liveness beyond the absence of deadlock: no fairness between the threads is assumed.
- Guest loads and stores outside the emulator's memory, the RV32 build, `main`, and reading the image file: the guest's are undefined behaviour, the image comes as bytes.
- Shifts and masks of the emulator are written as division and remainder; for the byte codecs their agreement with the bit operations is proved, for the emulator's fields their agreement with the manual's formats.
- Logging and DEBUG output.
