# ARQ file transfer over UDP, modelled in Dafny

This project models a set of Java programs that send a file over UDP from a
sender to a receiver. They come in two coursework sets:

- **University set.** `Sender1`–`Sender4` and `Receiver1`–`Receiver4`, with
  the helper classes `WindowPacket` and `BufferedPacket`.
- **Coursework set.** `Sender1a/1b/2a` and `Receiver1a/1b/2a`, with the
  helper class `PacketInfo`.

Every datagram has the same three-byte header:

- byte 0 is the high byte of the packet number;
- byte 1 is the low byte of the packet number;
- byte 2 is the end-of-file flag.

The payload follows the header. It holds up to 1021 bytes in the University
set and up to 1024 bytes in the Coursework set. The protocols are:

- one-shot transmission (1, 1a);
- stop-and-wait with alternating numbers 0/1 (2, 1b);
- Go-Back-N (3, 2a);
- Selective Repeat (4).

What the model covers:

- **Receivers.** Each receiver is a step function over one arriving datagram
  (`Receiving.Step`). It yields bytes written, acknowledgements sent,
  whether the loop ends, or a crash. `Receiving.Run` plays a whole channel
  (any sequence of datagrams: lost, duplicated or reordered) through the
  step.
- **Senders.** Each sender is a pure function of the file contents.
  - The stop-and-wait senders also take the sequence of outcomes of their
    acknowledgement waits.
  - The window senders take a sequence of events. An event is one turn of
    the send loop, reading the clock once, or an acknowledgement handled by
    the acknowledgement thread.
  - Each window-sender step preserves a window invariant. The invariant
    holds whatever order the thread's events interleave with the loop's
    turns.
- **Main theorems.**
  - Every datagram a sender ever puts on the wire is one of the file's
    datagrams.
  - Receiver3, and Receiver2a and Receiver4 with the corrections listed
    under Findings, may be fed any channel built from the file's datagrams:
    lost, duplicated or reordered. They never write anything but a prefix
    of the file. When they finish, they have written exactly the file
    (`Safety` in each).
  - Receiver1 and Receiver1a write every payload they receive, so they are
    only shown correct over a channel that delivers every datagram once, in
    order (`Lossless`). A duplicated datagram is written twice.
  - Receiver1b, Receiver2 and, as written, Receiver4 are shown correct over
    a channel that keeps the order and may repeat each datagram any
    positive number of times (`Lossless`). Receiver2a is shown correct as
    written over an in-order channel without loss.
  - The stop-and-wait senders resend each packet after every wait that
    brings no matching acknowledgement, and go on to the next packet
    exactly at the first matching one (`StopAndWait.Paced`).

Modules, following the source files:

| module | models |
|---|---|
| `Bytes`, `Codec`, `Datagram`, `UniversityRx`, `CourseworkRx` | Java signed bytes, the header and acknowledgement encodings, and `DatagramPacket` receive buffers |
| `Framing`, `Reading` | how every sender cuts the file into chunks (`available()` / `read`) |
| `Receiving` | the common receive loop |
| `Receiver1`, `Receiver1a`, `Receiver1b`, `Receiver2`, `Receiver2a`, `Receiver3`, `Receiver4` | the receivers |
| `BufferedPackets`, `ReorderQueue` | `BufferedPacket` and Receiver4's `PriorityQueue` |
| `WindowPackets`, `PacketInfos` | `WindowPacket` and `PacketInfo` |
| `Sender1`, `Sender1a`, `StopAndWait`, `Sender2`, `Sender1b` | the one-shot and stop-and-wait senders |
| `WindowSenders`, `Sender3`, `Sender4`, `Sender2a` | the window senders |

## Model

| member | source | states |
|---|---|---|
| Bytes.Signed | Coursework/Receiver1b.java:47 | Reading a byte into an `int` gives its signed value: in [-128, 128) and congruent to the unsigned byte modulo 256 |
| Bytes.Zeros | Coursework/University-COMN-master/src/Receiver1.java:86 | A freshly allocated buffer holds only zero bytes |
| Codec.EncodeHeader | Coursework/University-COMN-master/src/Sender4.java:262-269 | The header carries the high byte and the low byte of the number, then 1 or 0 for end of file |
| Codec.UnsignedNum | Coursework/University-COMN-master/src/Receiver4.java:150 | The masked decode of bytes 0–1 always lies in [0, 65536) |
| Codec.SignedShortNum | Coursework/Receiver2a.java:49-51 | `ByteBuffer.getShort` lies in [-32768, 32768) and agrees with the unsigned decode modulo 65536 |
| Codec.EncodeAck | Coursework/University-COMN-master/src/Receiver4.java:243-245 | A two-byte acknowledgement, low byte first |
| Codec.DecodeAck | Coursework/University-COMN-master/src/Sender4.java:141-142 | The masked little-endian decode lies in [0, 65536) |
| Codec.DecodeSignedAck | Coursework/Sender2a.java:159-161 | The little-endian `getShort` lies in [-32768, 32768) |
| Codec.EncodeAck1 | Coursework/University-COMN-master/src/Receiver2.java:140-141 | The stop-and-wait acknowledgement is a single byte |
| Codec.HeaderRoundTrip | Coursework/University-COMN-master/src/Receiver4.java:150 | Decoding a header the senders wrote gives the number modulo 65536, exactly for 16-bit numbers; both end-of-file tests (`> 0`, `== 1`) hold exactly when the flag was set |
| Codec.SignedHeaderRoundTrip | Coursework/Receiver2a.java:49-51 | Receiver2a reads back numbers below 32768 exactly; from 32768 on it reads them as negative |
| Codec.AckRoundTrip | Coursework/University-COMN-master/src/Sender3.java:148-149 | Decoding an acknowledgement gives back the number modulo 65536, exactly for 16-bit numbers |
| Codec.SignedAckRoundTrip | Coursework/Sender2a.java:159-161 | Sender2a decodes every acknowledgement Receiver2a can encode back to its number |
| Codec.MinusOneAck | Coursework/Receiver2a.java:75-76 | Receiver2a's acknowledgement of "nothing yet" (-1) is the two bytes 255, 255 |
| Datagram.Overlay | Coursework/Receiver1a.java:30-32 | Receiving into a buffer overwrites its first bytes with the datagram and leaves the rest as they were |
| Datagram.Receive | Coursework/Receiver1a.java:30-34 | The reported length is the datagram's length, truncated to the buffer's |
| Datagram.Payload | Coursework/Receiver1a.java:34 | `write(buf, 3, len - 3)` succeeds exactly when the length is at least 3, and writes `len - 3` bytes |
| Datagram.ReceiveWhole | Coursework/Receiver1a.java:30-34 | A datagram that fits is seen whole, and the written bytes are exactly its payload |
| UniversityRx.Arrive | Coursework/University-COMN-master/src/Receiver1.java:86-96 | A fresh 1024-byte buffer shows the datagram, then zeros; the length is truncated to 1024 |
| UniversityRx.SeeFrame | Coursework/University-COMN-master/src/Receiver4.java:137-150 | A sender's frame arrives whole: its number is the sent number modulo 65536, its flag test holds exactly at end of file, and its payload is the chunk |
| CourseworkRx.Arrive | Coursework/Receiver1a.java:23-32 | The one 1027-byte buffer shows the datagram over whatever the previous datagrams left |
| CourseworkRx.ArrivePayload | Coursework/Receiver1a.java:34 | A short datagram crashes the write; otherwise the payload is the bytes after the header |
| CourseworkRx.SeeFrame | Coursework/Receiver1b.java:43-59 | A Coursework frame arrives whole, whatever the buffer held before |
| Framing.ChunkLen | Coursework/University-COMN-master/src/Sender1.java:112-114 | The chunk length is the bytes available, capped at the payload size |
| Framing.NextChunk | Coursework/University-COMN-master/src/Sender1.java:108-130 | The chunk and the rest make up the remaining input; the flag is set exactly when at most a payload's worth remains, and a chunk without the flag is full |
| Framing.ChunksReassemble | Coursework/University-COMN-master/src/Sender1.java:106-154 | The payloads of all chunks, in order, are the file |
| Framing.ChunksShape | Coursework/University-COMN-master/src/Sender1.java:106-154 | There is at least one chunk; only the last carries the flag; all others are full; the last is nonempty unless it is the only one |
| Framing.ChunksCount | Coursework/Sender1a.java:29-69 | The number of packets is the file size divided by the payload size, rounded up (one packet for an empty file) |
| Framing.Example2500 | Coursework/University-COMN-master/src/Sender1.java:112-117 | A 2500-byte file goes out as packets of 1021, 1021 and 458 bytes, flagged only on the last |
| Framing.Frame | Coursework/University-COMN-master/src/Sender1.java:120-130 | A datagram is the header followed by the payload |
| Framing.FramesFrom | Coursework/University-COMN-master/src/Sender1.java:101-146 | The i-th datagram frames the i-th chunk with the i-th number of the numbering |
| Framing.FrameAt | Coursework/University-COMN-master/src/Sender1.java:101-146 | Each datagram frames its chunk, carries the flag exactly when it is the last, and is 3 to 3 + cap bytes long |
| Reading.Read | Coursework/University-COMN-master/src/Sender4.java:250-272 | Reading consumes exactly the chunk; the reader reaches end of file exactly when the chunk is flagged |
| Reading.OpenAt | Coursework/University-COMN-master/src/Sender4.java:207 | A freshly opened file stands at chunk 0 |
| Reading.ReadAt | Coursework/University-COMN-master/src/Sender4.java:250-272 | Reading at chunk k yields chunk k and stands at chunk k + 1 |
| Receiving.RunAppend | Coursework/University-COMN-master/src/Receiver1.java:83-116 | Receiving a channel in two parts is receiving it whole |
| Receiving.RunStopped | Coursework/University-COMN-master/src/Receiver1.java:83 | Once the loop has ended (or crashed), later datagrams change nothing |
| Receiving.Copies | Coursework/University-COMN-master/src/Sender2.java:169-182 | The same datagram sent c times |
| Receiving.RepeatAt | Coursework/University-COMN-master/src/Sender2.java:131-193 | A channel of repeated datagrams splits into the first copy, the rest of its copies, and the later packets |
| Receiver1.Step | Coursework/University-COMN-master/src/Receiver1.java:86-107 | Every datagram's payload is written with no acknowledgement; the loop ends when the flag byte is positive; a datagram shorter than 3 bytes crashes the write |
| Receiver1.DeliversPrefix | Coursework/University-COMN-master/src/Receiver1.java:83-116 | The first k datagrams of the file, in order, write exactly the first k chunks and end the loop exactly at the last |
| Receiver1.FeedFrame | Coursework/University-COMN-master/src/Receiver1.java:99-107 | A frame appends its payload and ends the loop exactly when flagged |
| Receiver1.Lossless | Coursework/University-COMN-master/src/Receiver1.java:83-116 | Over an in-order, lossless channel the file is written exactly, whatever follows |
| Receiver1a.Step | Coursework/Receiver1a.java:28-39 | As Receiver1, with a reused 1027-byte buffer and the test `flag == 1` |
| Receiver1a.DeliversPrefix | Coursework/Receiver1a.java:28-39 | The first k datagrams write exactly the first k chunks |
| Receiver1a.FeedFrame | Coursework/Receiver1a.java:30-38 | A frame appends its payload and ends the loop exactly when flagged |
| Receiver1a.Lossless | Coursework/Receiver1a.java:28-39 | Over an in-order, lossless channel the file is written exactly |
| Receiver1b.Step | Coursework/Receiver1b.java:41-71 | A number unlike the previous one writes the payload; a repeated one writes nothing; either way the buffer's number byte is acknowledged and remembered |
| Receiver1b.Duplicates | Coursework/Receiver1b.java:53-69 | Repeats of the last packet write nothing more |
| Receiver1b.FeedNew | Coursework/Receiver1b.java:53-69 | A new alternating number appends the payload |
| Receiver1b.OnePacket | Coursework/Receiver1b.java:41-71 | One packet sent c ≥ 1 times writes its chunk once |
| Receiver1b.DeliversRest | Coursework/Receiver1b.java:41-71 | Packets i.. each sent at least once write the rest of the file |
| Receiver1b.Lossless | Coursework/Receiver1b.java:41-71 | Any stop-and-wait channel that repeats packets but keeps their order writes the file exactly |
| Receiver2.Step | Coursework/University-COMN-master/src/Receiver2.java:114-151 | A number unlike the previous one writes and may end the loop; a repeat only re-acknowledges; the one-byte acknowledgement carries the number |
| Receiver2.Duplicates | Coursework/University-COMN-master/src/Receiver2.java:117-151 | Repeats of the last packet write nothing more |
| Receiver2.FeedNew | Coursework/University-COMN-master/src/Receiver2.java:117-125 | A new number appends the payload |
| Receiver2.OnePacket | Coursework/University-COMN-master/src/Receiver2.java:97-153 | One packet sent c ≥ 1 times writes its chunk once |
| Receiver2.DeliversRest | Coursework/University-COMN-master/src/Receiver2.java:97-153 | Packets i.. each sent at least once write the rest of the file |
| Receiver2.Lossless | Coursework/University-COMN-master/src/Receiver2.java:97-153 | Any channel that repeats packets but keeps their order writes the file exactly |
| Receiver2a.StepWith | Coursework/Receiver2a.java:43-87 | The next number is accepted and written, anything else keeps the last number; the last accepted number is acknowledged; the flag ends the loop (as written, even for a discarded datagram) |
| Receiver2a.AcksNeverDecrease | Coursework/Receiver2a.java:58-82 | The acknowledged numbers never decrease |
| Receiver2a.FirstAckBeforeAcceptance | Coursework/Receiver2a.java:32-82 | Before packet 0 arrives, a datagram is acknowledged as 255, 255 (-1) |
| Receiver2a.DeliversPrefix | Coursework/Receiver2a.java:43-87 | The first k datagrams, in order, write the first k chunks |
| Receiver2a.DeliversAll | Coursework/Receiver2a.java:43-87 | All of the file's datagrams in order end the loop without a crash, having written every chunk |
| Receiver2a.FeedFrame | Coursework/Receiver2a.java:58-70 | The expected frame appends its payload; any other writes nothing |
| Receiver2a.Lossless | Coursework/Receiver2a.java:43-87 | Over an in-order, lossless channel the file is written exactly |
| Receiver2a.EarlyEnd | Coursework/Receiver2a.java:63-70 | As written: a flagged datagram that overtakes its predecessor ends the transfer with nothing written |
| Receiver2a.FeedSafe | Coursework/Receiver2a.java:58-70 | With the corrected end test, receiving one of the file's datagrams keeps the output a prefix of the file |
| Receiver2a.Safety | Coursework/Receiver2a.java:43-87 | With the corrected end test, any channel of the file's datagrams writes a prefix of the file, and the whole file if the loop ends |
| Receiver2a.SafetyOver | Coursework/Receiver2a.java:43-87 | With the corrected end test, any channel of datagrams drawn from a well-formed chunk sequence keeps the output a prefix of its data, the last number in range, and the whole data once the loop ends |
| Receiver3.Step | Coursework/University-COMN-master/src/Receiver3.java:115-150 | Only the next number is written; every datagram is acknowledged with the last in-order number |
| Receiver3.AcksNeverDecrease | Coursework/University-COMN-master/src/Receiver3.java:118-146 | The acknowledged numbers never decrease |
| Receiver3.FeedSafe | Coursework/University-COMN-master/src/Receiver3.java:118-134 | Receiving one of the file's datagrams keeps the output a prefix of the file |
| Receiver3.FeedFrame | Coursework/University-COMN-master/src/Receiver3.java:118-146 | The expected frame appends its payload and is acknowledged; any other only repeats the last acknowledgement |
| Receiver3.Safety | Coursework/University-COMN-master/src/Receiver3.java:99-156 | Any channel of the file's datagrams writes a prefix of the file, and the whole file if the loop ends |
| Receiver3.DeliversPrefix | Coursework/University-COMN-master/src/Receiver3.java:87-134 | After the first k datagrams in order, the receiver expects packet k + 1 |
| Receiver3.Lossless | Coursework/University-COMN-master/src/Receiver3.java:99-156 | Over an in-order, lossless channel the file is written exactly |
| Receiver4.DrainSpec | Coursework/University-COMN-master/src/Receiver4.java:179-205 | The drain removes exactly the longest run of consecutive numbers at the head of the queue, writes their data in order, and ends on the last one's flag |
| Receiver4.DrainShape | Coursework/University-COMN-master/src/Receiver4.java:179-205 | The drain leaves a suffix of the queue whose head, if any, is not the next expected number; the expected number advances by the count removed; the end flag is the last removed packet's |
| Receiver4.DrainRun | Coursework/University-COMN-master/src/Receiver4.java:179-205 | The packets the drain removes carry consecutive numbers starting just after the last one written |
| Receiver4.DrainWritten | Coursework/University-COMN-master/src/Receiver4.java:179-205 | The drain writes exactly the data of the packets it removes, in queue order |
| Receiver4.DrainLeavesGap | Coursework/University-COMN-master/src/Receiver4.java:179-209 | After the drain the smallest buffered number is beyond the next expected one |
| Receiver4.Stored | Coursework/University-COMN-master/src/Receiver4.java:226-229 | As written, the buffered copy is as long as the datagram: its payload followed by three zero bytes |
| Receiver4.Hold | Coursework/University-COMN-master/src/Receiver4.java:220-236 | An out-of-order packet is buffered once (a duplicate number leaves the queue as it was) and acknowledged |
| Receiver4.StepWith | Coursework/University-COMN-master/src/Receiver4.java:150-283 | A crash happens exactly on a short expected datagram; outside the window nothing is written and only a number behind the window is acknowledged |
| Receiver4.InitInv | Coursework/University-COMN-master/src/Receiver4.java:119-122 | The start state satisfies the receive-window invariant |
| Receiver4.DeliverKeepsInv | Coursework/University-COMN-master/src/Receiver4.java:160-209 | The in-order branch keeps the receive-window invariant |
| Receiver4.HoldKeepsInv | Coursework/University-COMN-master/src/Receiver4.java:211-236 | The buffering branch keeps the receive-window invariant |
| Receiver4.StepKeepsInv | Coursework/University-COMN-master/src/Receiver4.java:134-285 | Every datagram keeps the receive-window invariant |
| Receiver4.BufferBound | Coursework/University-COMN-master/src/Receiver4.java:153-236 | At most ws - 1 packets are ever buffered |
| Receiver4.RunKeepsInv | Coursework/University-COMN-master/src/Receiver4.java:134-285 | Any channel keeps the receive-window invariant |
| Receiver4.InOrder | Coursework/University-COMN-master/src/Receiver4.java:160-274 | The expected packet is written first, the window moves past it, and it is acknowledged twice |
| Receiver4.OutOfOrder | Coursework/University-COMN-master/src/Receiver4.java:211-249 | A later packet in the window writes nothing; it is buffered unless its number is already buffered, and acknowledged once |
| Receiver4.DrainExample | Coursework/University-COMN-master/src/Receiver4.java:179-205 | Buffered 5, 6, 8 after packet 4: the drain writes 5 and 6 and stops at the gap |
| Receiver4.DeliverSafe | Coursework/University-COMN-master/src/Receiver4.java:160-209 | Corrected: delivering the expected packet keeps the output a prefix of the file |
| Receiver4.HoldSafe | Coursework/University-COMN-master/src/Receiver4.java:211-236 | Buffering a packet of the file keeps the output a prefix of the file |
| Receiver4.FeedSafe | Coursework/University-COMN-master/src/Receiver4.java:134-285 | Corrected: receiving any of the file's datagrams keeps the output a prefix of the file |
| Receiver4.SafeRun | Coursework/University-COMN-master/src/Receiver4.java:134-285 | Corrected: any channel of the file's datagrams keeps the output a prefix of the file |
| Receiver4.Safety | Coursework/University-COMN-master/src/Receiver4.java:110-285 | Corrected: any channel of the file's datagrams never crashes and writes the first prev + 1 chunks, and the whole file if the loop ends |
| Receiver4.BehindFrame | Coursework/University-COMN-master/src/Receiver4.java:263-274 | A packet behind the window is only re-acknowledged |
| Receiver4.DuplicatesIgnored | Coursework/University-COMN-master/src/Receiver4.java:263-274 | Any number of repeats of a delivered packet write nothing |
| Receiver4.Lossless | Coursework/University-COMN-master/src/Receiver4.java:110-285 | As written, an in-order channel with repeats writes the file exactly |
| Receiver4.TrailingZeros | Coursework/University-COMN-master/src/Receiver4.java:226-233 | As written: two packets arriving in reverse order leave the file with three extra zero bytes |
| Receiver4.SwappedCorrected | Coursework/University-COMN-master/src/Receiver4.java:226-233 | Corrected: the same reversed channel writes the file exactly |
| BufferedPackets.Equals | Coursework/University-COMN-master/src/BufferedPacket.java:77-101 | Equal exactly to another `BufferedPacket` with the same number |
| BufferedPackets.Wrap32 | Coursework/University-COMN-master/src/BufferedPacket.java:64 | Java `int` arithmetic: the result is a 32-bit value congruent to the exact one |
| BufferedPackets.HashCode | Coursework/University-COMN-master/src/BufferedPacket.java:60-66 | The hash is 31 + number, wrapped to 32 bits |
| BufferedPackets.EqualsIsEquivalence | Coursework/University-COMN-master/src/BufferedPacket.java:77-101 | `equals` is reflexive, symmetric and transitive, and false for null or another class |
| BufferedPackets.HashAgreesWithEquals | Coursework/University-COMN-master/src/BufferedPacket.java:60-101 | Equal packets have equal hashes |
| ReorderQueue.Compare | Coursework/University-COMN-master/src/Receiver4.java:80-90 | The comparator orders packets by number |
| ReorderQueue.CompareConsistent | Coursework/University-COMN-master/src/Receiver4.java:80-90 | The comparator is antisymmetric and agrees with `equals` |
| ReorderQueue.Contains | Coursework/University-COMN-master/src/Receiver4.java:234 | `contains` holds exactly when some queued packet has the same number |
| ReorderQueue.Add | Coursework/University-COMN-master/src/Receiver4.java:235 | Adding puts in exactly one more packet and keeps the queue ascending when the number is new |
| ReorderQueue.Peek | Coursework/University-COMN-master/src/Receiver4.java:179-181 | `peek` gives nothing exactly for an empty queue, and otherwise the least number |
| ReorderQueue.AscendingBound | Coursework/University-COMN-master/src/Receiver4.java:153-236 | An ascending queue of numbers within (lo, hi] holds at most hi - lo packets |
| WindowPackets.New | Coursework/University-COMN-master/src/WindowPacket.java:31-39 | A new entry holds its datagram, flag and number, and was last sent at time 0 |
| WindowPackets.AckPacket | Coursework/University-COMN-master/src/WindowPacket.java:62-64 | Acknowledging sets the flag and changes nothing else |
| WindowPackets.SetTimeLastSent | Coursework/University-COMN-master/src/WindowPacket.java:91-93 | Stamping sets the time and changes nothing else |
| WindowPackets.AckIdempotent | Coursework/University-COMN-master/src/WindowPacket.java:62-64 | Acknowledging twice is acknowledging once |
| WindowPackets.ApplyKeeps | Coursework/University-COMN-master/src/WindowPacket.java:62-93 | Whatever mix of acknowledgements and stamps an entry receives, its datagram and number stay, and once acknowledged it stays so |
| WindowPackets.NewIsDue | Coursework/University-COMN-master/src/Sender4.java:296-297 | A new unacknowledged entry is due as soon as the clock passes the timeout |
| WindowPackets.StampedNotDue | Coursework/University-COMN-master/src/Sender4.java:296-306 | An entry stamped at `now` is not due again until the timeout has passed |
| WindowPackets.Packets | Coursework/University-COMN-master/src/WindowPacket.java:46-48 | The datagrams of a window, in order |
| PacketInfos.New | Coursework/PacketInfo.java:10-15 | A new entry is unacknowledged and has time 0, whatever time was passed |
| PacketInfos.SetAck | Coursework/PacketInfo.java:33-35 | Sets the flag and changes nothing else |
| PacketInfos.SetTimeOfTransmission | Coursework/PacketInfo.java:37-39 | Sets the time and changes nothing else |
| PacketInfos.NewIgnoresTime | Coursework/PacketInfo.java:10-15 | The constructor's time argument has no effect |
| PacketInfos.NewIsDue | Coursework/Sender2a.java:95-109 | So a new entry above the acknowledged number is due as soon as the clock passes the timeout |
| Sender1.Send | Coursework/University-COMN-master/src/Sender1.java:101-154 | The loop sends exactly the file's datagrams, numbered 0, 1, 2, … |
| Sender1.NumberWraps | Coursework/University-COMN-master/src/Sender1.java:123-124 | Packet 65536 carries the same header number as packet 0 |
| Sender1.SentShape | Coursework/University-COMN-master/src/Sender1.java:106-154 | Datagram i is its header plus chunk i; only the last has the flag; all but the last are full; the payloads make up the file |
| Sender1a.Send | Coursework/Sender1a.java:29-69 | The loop sends exactly the file's 1024-byte-payload datagrams, numbered from 0 |
| StopAndWait.AckMatching | Coursework/University-COMN-master/src/Sender2.java:265 | The acknowledgement of packet k matches packet k and not packet k + 1 |
| StopAndWait.Attempts | Coursework/University-COMN-master/src/Sender2.java:169-182 | A packet is resent until the first matching reply; no reply before it matches |
| StopAndWait.Transfer | Coursework/University-COMN-master/src/Sender2.java:131-193 | The datagrams sent are the file's packets in order, each repeated by its count; every packet before the current one was acknowledged; packet k + j uses its own run of replies, none matching its number but the last, which matches exactly when the packet is done; an unfinished transfer has used every reply; the counter equals sends minus packets |
| StopAndWait.PacedCons | Coursework/University-COMN-master/src/Sender2.java:166-186 | A packet acknowledged at its c-th reply, after c - 1 non-matching ones, followed by a paced run over the remaining replies, gives a paced run |
| Sender2.Send | Coursework/University-COMN-master/src/Sender2.java:120-193 | Sender2 sends the alternating-number datagrams in order, each resent after every wait without the matching acknowledgement and no more after it; the counter counts retransmissions |
| Sender2.Header | Coursework/University-COMN-master/src/Sender2.java:148-152 | Byte 0 is 0, byte 1 the alternating number, byte 2 the flag |
| Sender2.OneTimeout | Coursework/University-COMN-master/src/Sender2.java:166-182 | One timeout and then the acknowledgement: the packet goes out twice and one retransmission is counted |
| Sender2.EndToEnd | Coursework/University-COMN-master/src/Sender2.java:131-193 | A completed transfer leaves Receiver2 with the file written exactly |
| Sender1b.Send | Coursework/Sender1b.java:34-108 | Sender1b sends the alternating-number datagrams in order, each resent after every wait without the matching acknowledgement and no more after it |
| Sender1b.NeverGivesUp | Coursework/Sender1b.java:69-98 | The give-up counter is never raised: while no reply matches packet 0, every reply is followed by another send of packet 0 and the transfer never completes |
| Sender1b.EndToEnd | Coursework/Sender1b.java:34-108 | A completed transfer leaves Receiver1b with the file written exactly |
| WindowSenders.Admit | Coursework/University-COMN-master/src/Sender4.java:248-289 | Admission only appends, never beyond the window size, and stops with the window full or the file read |
| WindowSenders.StartInv | Coursework/University-COMN-master/src/Sender4.java:213-217 | The start state satisfies the window invariant |
| WindowSenders.AdmitOneKeepsInv | Coursework/University-COMN-master/src/Sender4.java:250-283 | Admitting one packet keeps the window invariant |
| WindowSenders.AdmitKeepsInv | Coursework/University-COMN-master/src/Sender4.java:248-289 | The admission loop keeps the window invariant |
| WindowSenders.DropKeepsInv | Coursework/University-COMN-master/src/Sender4.java:241-245 | Removing entries from the front keeps the window invariant |
| WindowSenders.SameEntriesKeepInv | Coursework/University-COMN-master/src/Sender4.java:146-157 | Changing only flags and times keeps the window invariant |
| WindowSenders.EmptyAfterAdmit | Coursework/University-COMN-master/src/Sender4.java:248-319 | With a positive window, an empty window after admission means every packet has been made |
| WindowSenders.NoWindow | Coursework/University-COMN-master/src/Sender4.java:248 | With window size 0 or less nothing is admitted |
| WindowSenders.CarriedAreFrames | Coursework/University-COMN-master/src/Sender4.java:262-281 | Every entry holds one of the file's datagrams |
| Sender4.Retire | Coursework/University-COMN-master/src/Sender4.java:241-245 | Removes the acknowledged entries at the front and stops at the first unacknowledged one |
| Sender4.RetireIdempotent | Coursework/University-COMN-master/src/Sender4.java:241-245 | Retiring twice is retiring once |
| Sender4.Scan | Coursework/University-COMN-master/src/Sender4.java:292-312 | Exactly the due entries are resent and stamped; the others are left alone |
| Sender4.ScanTwice | Coursework/University-COMN-master/src/Sender4.java:292-312 | A second scan at the same time sends nothing |
| Sender4.MarkFirst | Coursework/University-COMN-master/src/Sender4.java:146-157 | Only the first entry with the number is marked |
| Sender4.AckIn | Coursework/University-COMN-master/src/Sender4.java:141-157 | An acknowledgement changes only flags |
| Sender4.AckMarksOnly | Coursework/University-COMN-master/src/Sender4.java:141-157 | In a numbered window, an acknowledgement of n marks exactly the entry numbered n |
| Sender4.HighNeverAcked | Coursework/University-COMN-master/src/Sender4.java:141-150 | An entry numbered 65536 or more is never marked |
| Sender4.AckTwice | Coursework/University-COMN-master/src/Sender4.java:146-157 | A repeated acknowledgement changes nothing more |
| Sender4.TurnKeepsInv | Coursework/University-COMN-master/src/Sender4.java:238-323 | A loop turn keeps the window invariant and sends only the file's datagrams |
| Sender4.TurnEndsAtEof | Coursework/University-COMN-master/src/Sender4.java:238-323 | After a turn with a positive window, an empty window means the file was read to the end |
| Sender4.GoKeepsInv | Coursework/University-COMN-master/src/Sender4.java:124-323 | Any interleaving of turns and acknowledgements keeps the invariant and sends only the file's datagrams |
| Sender4.SendSafe | Coursework/University-COMN-master/src/Sender4.java:197-323 | Everything sent is one of the file's datagrams; if the loop stops with a positive window, every packet was made and the window is empty |
| Sender4.GoStopsEmpty | Coursework/University-COMN-master/src/Sender4.java:317-319 | The loop stops only on an empty window |
| Sender4.NoWindowEndsAtOnce | Coursework/University-COMN-master/src/Sender4.java:238-319 | With window size 0 or less, the first turn sends nothing and stops |
| Sender4.StuckRetire | Coursework/University-COMN-master/src/Sender4.java:241-245 | Once an entry numbered 65536 is made, retiring keeps it in the window |
| Sender4.StuckAdmit | Coursework/University-COMN-master/src/Sender4.java:248-289 | Admission keeps it too |
| Sender4.StuckAck | Coursework/University-COMN-master/src/Sender4.java:141-157 | Acknowledgements never mark it |
| Sender4.TurnStuck | Coursework/University-COMN-master/src/Sender4.java:238-323 | For files of more than 65536 packets a turn never empties the window once packet 65536 is made |
| Sender4.GoStuck | Coursework/University-COMN-master/src/Sender4.java:124-323 | Nor does any later interleaving |
| Sender4.NeverEndsPast65536 | Coursework/University-COMN-master/src/Sender4.java:141-319 | A file of more than 65536 packets is never finished, whatever acknowledgements arrive |
| Sender4.EndToEnd | Coursework/University-COMN-master/src/Sender4.java:197-323 | Any channel built from what Sender4 sends leaves the corrected Receiver4 with a prefix of the file, and the file if it finishes |
| Sender4.Returns | Coursework/University-COMN-master/src/Sender4.java:341-355 | `send` reports failure only for socket and unknown-host exceptions; an IO exception still returns true; an exception before the socket is assigned ends in the NullPointerException of `finally` |
| Sender4.IoErrorReportsSuccess | Coursework/University-COMN-master/src/Sender4.java:348-355 | As written, an IO exception returns true where the documented result is false |
| Sender3.AckIn | Coursework/University-COMN-master/src/Sender3.java:148-155 | The acknowledged number only grows, to the decoded number when that is larger |
| Sender3.AckOf | Coursework/University-COMN-master/src/Sender3.java:148-155 | The acknowledgement of n raises the number to max(old, n) |
| Sender3.Retire | Coursework/University-COMN-master/src/Sender3.java:239-241 | Removes the entries at the front numbered at or below the acknowledged number |
| Sender3.RetireAbove | Coursework/University-COMN-master/src/Sender3.java:239-241 | In a numbered window, what remains is exactly the entries above the acknowledged number |
| Sender3.FirstAbove | Coursework/University-COMN-master/src/Sender3.java:289-292 | The position of the first entry above the acknowledged number |
| Sender3.ScanFrom | Coursework/University-COMN-master/src/Sender3.java:288-316 | The scan changes only times, and sends at most the window |
| Sender3.SendingSendsAbove | Coursework/University-COMN-master/src/Sender3.java:292-307 | Once firing, every entry above the acknowledged number is resent and stamped |
| Sender3.SendingStamps | Coursework/University-COMN-master/src/Sender3.java:292-307 | Once firing, every entry above the acknowledged number gets the current time as its last-sent time and every other entry is unchanged |
| Sender3.SentIff | Coursework/University-COMN-master/src/Sender3.java:292-307 | Once firing, a datagram is sent if and only if some entry above the acknowledged number carries it |
| Sender3.ScanCases | Coursework/University-COMN-master/src/Sender3.java:288-316 | Go-back-N: if the first entry above the acknowledged number has timed out, all of them are resent; otherwise nothing is |
| Sender3.FiresResendsWindow | Coursework/University-COMN-master/src/Sender3.java:288-316 | On a timeout, with the window retired, the whole window goes out in order |
| Sender3.AllAboveSends | Coursework/University-COMN-master/src/Sender3.java:292-307 | When firing over a retired window, the datagrams go out in window order |
| Sender3.TurnKeepsInv | Coursework/University-COMN-master/src/Sender3.java:235-325 | A loop turn keeps the window invariant, sends only the file's datagrams, and an empty window with a positive size means end of file |
| Sender3.GoKeepsInv | Coursework/University-COMN-master/src/Sender3.java:128-329 | Any interleaving keeps the invariant; the acknowledged number never decreases |
| Sender3.SendSafe | Coursework/University-COMN-master/src/Sender3.java:194-329 | Everything sent is one of the file's datagrams numbered from 1; stopping with a positive window means every packet was made and the window is empty |
| Sender3.TurnStuck | Coursework/University-COMN-master/src/Sender3.java:235-325 | For files of 65536 packets or more, once packet 65536 is made a turn never empties the window |
| Sender3.GoStuck | Coursework/University-COMN-master/src/Sender3.java:128-329 | Nor does any later interleaving |
| Sender3.NeverEndsFrom65536 | Coursework/University-COMN-master/src/Sender3.java:148-325 | A file of 65536 packets or more is never finished |
| Sender3.EndToEnd | Coursework/University-COMN-master/src/Sender3.java:194-329 | Any channel built from what Sender3 sends leaves Receiver3 with a prefix of the file, and the file if it finishes |
| Sender3.Returns | Coursework/University-COMN-master/src/Sender3.java:347-362 | `send` returns true even when an exception was caught; an exception before the socket is assigned ends in the NullPointerException of `finally` |
| Sender3.ErrorsReportSuccess | Coursework/University-COMN-master/src/Sender3.java:347-362 | As written, an unknown host returns true and an exception before the socket exists throws, where the documented result is false |
| WindowSenders.Reported | Coursework/University-COMN-master/src/Sender3.java:189 | The documented result: a value, true exactly when the transfer finished |
| Sender2a.Listen | Coursework/Sender2a.java:141-166 | The thread's loop runs only while `receiveAck` holds; a received acknowledgement raises `ackPacket` to the signed decoded number when larger; a wait that times out changes nothing |
| Sender2a.ListenToAck | Coursework/Sender2a.java:159-166 | The acknowledgement of n raises `ackPacket` to max(old, n) |
| Sender2a.RetireOne | Coursework/Sender2a.java:54-60 | At most one entry is removed per pass: the first, exactly when it is at or below `ackPacket` |
| Sender2a.Admit | Coursework/Sender2a.java:62-105 | Admission only appends, up to the window size, stops at end of file, and sets `receiveAck` once something was sent |
| Sender2a.AdmitSends | Coursework/Sender2a.java:95-98 | Each admitted packet is sent once, in order |
| Sender2a.Scan | Coursework/Sender2a.java:106-116 | Exactly the entries above `ackPacket` whose time plus timeout is before now are resent and stamped |
| Sender2a.InitInv | Coursework/Sender2a.java:15-41 | The start state satisfies the window invariant |
| Sender2a.AdmitKeepsInv | Coursework/Sender2a.java:62-105 | Admission keeps the window invariant |
| Sender2a.DropKeepsInv | Coursework/Sender2a.java:54-60 | Retiring keeps the window invariant |
| Sender2a.CarriedAreFrames | Coursework/Sender2a.java:74-95 | Every entry holds one of the file's datagrams |
| Sender2a.AdmitFromFile | Coursework/Sender2a.java:62-105 | Admission sends only the file's datagrams |
| Sender2a.ScanKeepsInv | Coursework/Sender2a.java:106-119 | The resend scan keeps the invariant and sends only the file's datagrams |
| Sender2a.TurnKeepsInv | Coursework/Sender2a.java:51-121 | One pass of the do-while keeps the invariant, sends only the file's datagrams, and leaves `ackPacket` alone |
| Sender2a.GoKeepsInv | Coursework/Sender2a.java:51-184 | Any interleaving with the thread keeps the invariant; `ackPacket` never decreases |
| Sender2a.SendSafe | Coursework/Sender2a.java:20-121 | Everything sent is one of the file's datagrams; the loop stops only once every packet was made |
| Sender2a.GoStopsAtEof | Coursework/Sender2a.java:101-121 | The do-while ends only after end of file was read |
| Sender2a.EndToEnd | Coursework/Sender2a.java:20-121 | Any channel built from what Sender2a sends leaves the corrected Receiver2a with a prefix of the file, and the file if it finishes |
| Sender2a.AdmitReachesEof | Coursework/Sender2a.java:62-105 | When the rest of the file fits in the window, one admission reads to the end |
| Sender2a.EndsWithoutAcks | Coursework/Sender2a.java:62-121 | A file of at most window-size packets ends after the first pass, before any acknowledgement is awaited |
| Sender2a.TurnOrphaned | Coursework/Sender2a.java:17-121 | Once the thread has exited, a pass never reaches end of file for a file larger than the window |
| Sender2a.GoOrphaned | Coursework/Sender2a.java:51-121 | Nor does any later pass |
| Sender2a.RaceNeverEnds | Coursework/Sender2a.java:17-144 | If the thread checks `receiveAck` before the first send, it exits, and a file larger than the window is never finished |
| Sender2a.NoWindowNeverEnds | Coursework/Sender2a.java:62-121 | With window size 0 or less nothing is ever sent and the loop never ends |
| Sender2a.AdmitAddsFresh | Coursework/Sender2a.java:95-97 | Every admitted entry has time 0 and a number at or above the packet counter before the pass |
| Sender2a.MadeAndResent | Coursework/Sender2a.java:95-113 | Because a new entry has time 0, the scan of the same pass resends every packet just made once the clock passes the timeout |

## Left out

- Sockets, files and streams are left out. Opening them, their exceptions, and closing them are not modelled, except for how the window senders' `send` ends (`WindowSenders.Ending`). A file is its contents. The channel is a sequence of datagrams. Acknowledgement waits are a sequence of outcomes or events.
- Argument parsing, `main`, DEBUG printing, byte counters and the timing and throughput computations (`double`) are left out.
- Threads are modelled as atomic events: Sender3's and Sender4's acknowledgement threads, and Sender2a's `ACKReceiveThread`. Such an event interleaves between turns of the send loop. The invariants are proved for each sub-step (retire, admit, scan, acknowledgement), so they also hold for finer interleavings. The event traces only model interleaving at turn boundaries.
- `Thread.sleep`, `Thread.yield` and the `synchronized` blocks are left out. Their only effect is on scheduling.
- Time: each loop turn reads the clock once (`now`). The source calls `currentTimeMillis` once per window entry. `PacketInfo`'s `double` times are modelled as `int` milliseconds.
- Sender3.Returns, Sender4.Returns: the printing of the caught exception is not modelled. Which call throws before the socket exists (`available()` or `new DatagramSocket()`) is not distinguished, because either way the `finally` block's `close` throws.
- The senders' `int` packet counters are unbounded here. Numbers past 2^31 (files of more than 2 TB) would wrap in Java. Numbers past 65536 are modelled: they wrap in the header.
- Sender2: an `IOException` in `waitForAck` returns false exactly like a timeout, so both are the `Timeout` reply.
- Sender1b: a non-numeric timeout argument or a closed socket throws out of `main`; this is not modelled.
- Receiver2a.Safety, Receiver2a.DeliversPrefix, Receiver2a.Lossless: these need at most 32768 packets. Beyond that, `getShort` reads numbers as negative and the receiver stops accepting; see Codec.SignedHeaderRoundTrip.
- Receiver3.Safety, Receiver3.Lossless: these need fewer than 65536 packets (Sender3 numbers from 1). Beyond that, the 16-bit header number wraps.
- Receiver4.Safety, Receiver4.Lossless: these need at most 65536 packets, for the same reason.
- Sender3.EndToEnd, Sender4.EndToEnd, Sender2a.EndToEnd: these state safety (a prefix of the file is written), not liveness. No lemma says a window sender eventually finishes over a fair channel.
- Receiver4's second acknowledgement for an in-order packet is kept as written. The test for packets behind the window runs after the window has moved.

## Findings

| source | as written | input that shows it | evidently intended | confidence | as-written member | corrected member |
|---|---|---|---|---|---|---|
| Coursework/University-COMN-master/src/Receiver4.java:226-229 | A buffered packet's data array is `currentPacketSize` long, but only `currentPacketSize - 3` bytes are copied in; the drain writes the whole array, so three zero bytes follow each buffered payload | A two-packet file (1022 to 2042 bytes) with packet 1 arriving before packet 0, window size 2: the file written is the input plus `[0, 0, 0]` | Buffer exactly the payload (`currentPacketSize - 3` bytes) | not executed | Receiver4.TrailingZeros | Receiver4.SwappedCorrected |
| Coursework/Receiver2a.java:63-70 | The end-of-file test runs for every datagram, including one discarded because it is out of order | A two-packet file whose flagged packet 1 arrives first: the loop ends with nothing written | End only when the flagged packet is the one accepted | not executed | Receiver2a.EarlyEnd | Receiver2a.Safety |
| Coursework/University-COMN-master/src/Sender3.java:347-362 | `send` returns true after catching a socket, unknown-host or IO exception, although its documentation (line 189) promises false if an error occurred; Sender4 (lines 348-355) does the same for an IO exception | An unknown host name: the exception is caught and `send` returns true | Return false whenever an exception was caught | not executed | Sender3.ErrorsReportSuccess | WindowSenders.Reported |
| Coursework/University-COMN-master/src/Sender4.java:223-225 | When `available()` or `new DatagramSocket()` throws, `senderSocket` is still null and the `close()` in `finally` (line 352) throws a NullPointerException in place of any result; Sender3 has the same at lines 220-222 and 357 | No free local port for `new DatagramSocket()`: `send` throws instead of returning false | Close the socket only if it was opened, and return false | not executed | Sender4.IoErrorReportsSuccess | WindowSenders.Reported |
