# Verification of the message service and its protocol engines

This project models, in Dafny 4.11, the hard parts of a distributed scheduled-message service
and of the protocol engines that it ships as source, and proves what they guarantee. `dafny
verify dfyconfig.toml` checks everything.

| modules | what they model |
|---|---|
| `WsFrames`, `WsReading`, `WsStream`, `WsCut`, `WsReader`, `WsWriter`, `WsSession`, `WsFormat` | the WebSocket framing engine: the frames of sections 5.2 to 5.5 of RFC 6455, the reading half as total functions and as a class that refines them, the writing half as a class over its buffer, the two put together, and the format in plain numbers |
| `Schedule`, `KeyStore` | the timer wheel: the virtual clock, the two maps, and the service that runs on them |
| `Deframer`, `Message`, `Handshake` | the cluster protocol: length-prefixed messages with a carry-over buffer, message encoding, and the handshake of two processes |
| `Packets`, `Codecs`, `Durations`, `Execute`, `StmtServer`, `ExecuteMeaning` | the MySQL packet layer, length-coded values and text rows, binary TIME, the EXECUTE command, and what a server that follows the MySQL Client/Server Protocol ("COM_STMT_EXECUTE", "Binary Protocol Value") makes of it |
| `ReplyLock` | the mutex that the thread-safe MySQL engine holds over a reply |
| `SqlLiteral` | arguments rendered into SQL text, against a scanner for MySQL literals |
| `Utf8` | the table-driven UTF-8 validator, against section 4 of RFC 3629 |
| `Queue` | the ring-buffer queue, alone and under concurrent steps |
| `Bytes` | octets, integer encodings and exclusive or |

Code that changes state step by step is a class or a method with loops, proved against a
function of its inputs; protocols between processes or goroutines are state machines over
their steps. Networks are byte sequences that arrive in pieces of any size: the pieces,
failures, random keys and clocks are parameters or arbitrary choices.

## What the code does not keep

Each of these is proved, with the exact condition under which the promise does hold.

- A WebSocket stream that is cut inside the payload of a data frame makes `ReadMessage` return a
  truncated message without an error; the error comes one call later. A cut anywhere else is
  reported (`WsCut.CutNoticed`, `WsSession.ReadCut`, `WsCut.CutAfterOneByte`).
- The read limit is missed when a header declares so much that the length of the message leaves
  the range of a signed 64-bit integer (`WsStream.LimitTestExact`, `WsStream.HugeFramePasses`).
- `put` cuts expirations down to thirty days although messages may ask for ninety: exactly those
  up to thirty days are sent on time in every run (`Schedule.ThirtyDaysExactly`). It crashes when
  an id is filed again as the sole entry of its own bucket (`KeyStore.Wheel.Put`,
  `KeyStore.PutTwice`).
- `readData` crashes when a read with nothing carried over returns a single byte, and on any
  message of 4097 to 32767 bytes, for which its buffer is too small; a length of 0x8000 or more
  is negative to it, and it returns nothing (`Deframer.Node.ReadData`, `Deframer.Deliver`,
  `Deframer.LongMessage`, `Deframer.NegativeLength`).
- A message with a newline in its endpoint or body does not survive its encoding
  (`Message.PayloadRoundTrip`).
- The master can report a successful handshake with a slave that has timed out, whose note
  about it the master takes for the slave's name (`Handshake.MasterAlone`); a name or secret
  of more than 64 bytes crashes the process that reads it (`Handshake.CanCrash`).
- A text row whose first column has 2^24 bytes or more is looked at as the end of the rows and
  refused as too long for that, and one whose payload is a multiple of 0xffffff is refused too
  (`Codecs.TextRowRoundTrip`).
- `EncodeDuration` never clears the sign byte, so a positive duration can reach the server
  negative (`Durations.DurationRoundTrip`, `Execute.DurationKeepsSign`,
  `Execute.NegatedByTypedNull`).
- A duration is sent with nanoseconds where the protocol has microseconds, and a number of whole
  days, zero among them, in a form that the protocol does not have: the server understands only
  whole seconds that are not whole days (`ExecuteMeaning.DurationAtServer`,
  `ExecuteMeaning.WholeDay`). The microseconds of a time can be 1000000
  (`ExecuteMeaning.MomentAtServer`), and an execution without parameters has a byte too many, the
  flag for types (`ExecuteMeaning.ServerUnderstands`).
- `Len` is wrong for raw values declared as some types (`Execute.LenIsExact`).
- An error packet, or one that cannot be read, between two results leaves the mutex of the thread-safe engine locked for
  ever, and one within or after rows makes the connection refuse every later command
  (`ReplyLock.ReadReply`); a nil row makes `ScanRow` unlock whatever the lock's state, and one
  of the wrong length with the reply unread (`ReplyLock.NilRows`, `ReplyLock.Conn.ScanRow`).
- Two strings for placeholders with nothing or only white space between them become one string
  (`SqlLiteral.StatementReadsBack`).
- Pushers that store into a ring that has become full empty the queue, and a `PushFront` during a
  `PopMessage` loses a message; there is no other way to lose one (`Queue.SoundExactly`,
  `Queue.TwoPushersLoseAll`, `Queue.PushFrontDuringPop`).

## Model

| member | source | states |
|---|---|---|
| `WsSession.RoundTrip` | src/github.com/gorilla/websocket/conn.go:314-528 | any sequence of data messages, written whole or in any pieces by Write, WriteString, ReadFrom or WriteMessage, with pings and pongs between them, through a write buffer of any size from 1, in either role and under any masking keys, comes out of the opposite reader with the same types and bytes in order, whatever pieces the network delivers; then the stream ends |
| `WsSession.WriterRun` | src/github.com/gorilla/websocket/conn.go:221-398 | writer-run safety: after any interleaving of NextWriter, Write, WriteString, ReadFrom, Close, WriteMessage and WriteControl on current and stale message writers, with control frames from other goroutines before every locked write and short writes at any byte, the wire is whole legal frames plus at most the beginning of one more legal frame, nothing follows a Close frame, and the peer that reads it reports no protocol error |
| `WsSession.PeerIsContent` | src/github.com/gorilla/websocket/conn.go:557-684 | reading such a wire, torn off or not, yields every message complete on it and never a protocol error |
| `WsSession.BrokenRoundTrip` | src/github.com/gorilla/websocket/conn.go:722-774 | the round trip when the connection breaks off after any number of bytes: the messages received are the first of those sent, but for the last, which may be cut short and then has the type and strictly the first bytes of the one sent; the only error is the end of the stream |
| `WsSession.ReadCut` | src/github.com/gorilla/websocket/conn.go:722-774 | reading the first k bytes of any legal frames: the last message comes back incomplete and without an error if and only if the cut is inside the payload of a data frame; anywhere else every message returned is whole, and the part of the next one comes with an error |
| `WsCut.CutNoticed` | src/github.com/gorilla/websocket/conn.go:722-762 | for every legal sequence of frames and every k: reading the first k bytes ends without an error of its own if and only if k lies at or after the header end and before the end of a data frame; the part delivered is then of the right type and strictly less than its message, and otherwise the end of the stream or the Close frame is reported |
| `WsCut.CutAfterOneByte` | src/github.com/gorilla/websocket/conn.go:730-741 | the binary message "ab" of which three of four bytes arrive is read as "a", without an error |
| `WsCut.CutEnds` | src/github.com/gorilla/websocket/conn.go:557-684 | how reading from frame to frame ends, for every cut of every legal sequence |
| `WsCut.SessionEnds` | src/github.com/gorilla/websocket/conn.go:699-774 | message by message, reading ends as it does from frame to frame |
| `WsCut.TornEnds` | src/github.com/gorilla/websocket/conn.go:567-684 | a legal frame of which only the first bytes arrive: an error, unless its header is whole and it is a data frame |
| `WsCut.SessionCut` | src/github.com/gorilla/websocket/conn.go:557-774 | reading a prefix of any byte stream delivers a prefix of the messages and control messages of the whole stream, then at most the beginning, type and bytes, of the next message, and ends where the stream ends or exactly as the whole does |
| `WsCut.RestCut` | src/github.com/gorilla/websocket/conn.go:722-762 | the same for an open message |
| `WsCut.NextCut` | src/github.com/gorilla/websocket/conn.go:699-715 | the same for the search for the next message |
| `WsCut.AdvanceCut` | src/github.com/gorilla/websocket/conn.go:557-684 | one advanceFrame on less input reports the end of the stream, or what it would have reported |
| `WsSession.SendAll` | src/github.com/gorilla/websocket/conn.go:314-528 | the frames on the wire after a calm run mean exactly the messages intended, none open and no Close |
| `WsSession.Send` | src/github.com/gorilla/websocket/conn.go:314-331 | one message sent by whichever calls leaves the writer idle with exactly that message added |
| `WsSession.SendInPieces` | src/github.com/gorilla/websocket/conn.go:314-331 | NextWriter, any pieces and Close add exactly one message, the pieces joined |
| `WsSession.SendPiece` | src/github.com/gorilla/websocket/conn.go:457-502 | each writing call appends its bytes to the open message and nothing else |
| `WsSession.Perform` | src/github.com/gorilla/websocket/conn.go:400-414 | any call, on any message writer handed out so far, keeps the writer's invariant |
| `WsStream.SessionReadsFrames` | src/github.com/gorilla/websocket/conn.go:557-762 | on the encoding of any legal sequence of frames, at any read limit and with handlers that may fail, reading message after message delivers the messages and control payloads of the frames before the first one that breaks the limit or that its handler refuses, the data of an unfinished message, and then the right error; never a protocol error |
| `WsStream.StreamRoundTrip` | src/github.com/gorilla/websocket/conn.go:557-762 | without a limit and handler errors, everything the frames mean is delivered, then the Close error or the end of the stream |
| `WsStream.AdmittedMeansWithinLimit` | src/github.com/gorilla/websocket/conn.go:636-671 | the frames let through are exactly those before the first data frame that takes its whole message over the limit or the first ping or pong whose handler returns an error; control payloads never count |
| `WsStream.LimitTestExact` | src/github.com/gorilla/websocket/conn.go:606-642 | on the header of any data frame, the declared length being any 64-bit number, the limit test stops exactly the messages over the limit if and only if the message length with the declared one stays within a signed 64-bit integer |
| `WsStream.HugeFramePasses` | src/github.com/gorilla/websocket/conn.go:614-642 | ten bytes that declare a frame of 2^63 bytes pass a limit of one and make the running length negative |
| `WsStream.HeadOfEncoded` | src/github.com/gorilla/websocket/conn.go:567-632 | the header parser accepts an encoded frame if and only if the frame obeys sections 5.2 to 5.5 of RFC 6455 where it stands, and then recovers every field; otherwise it reports a protocol error |
| `WsStream.AdvanceEncoded` | src/github.com/gorilla/websocket/conn.go:557-684 | one advanceFrame over one legal frame: unmasked control payload, handler error, Close error, limit error, or a data frame entered at its payload |
| `WsStream.OneMessage` | src/github.com/gorilla/websocket/conn.go:699-762 | one message: control frames before and within it are consumed, its fragments are joined, and the frames after it are left |
| `WsStream.OpenMessage` | src/github.com/gorilla/websocket/conn.go:722-762 | an open message is read to its end across fragments and interleaved control frames |
| `WsReading.RestAfterChunk` | src/github.com/gorilla/websocket/conn.go:722-741 | handing out any non-empty prefix of a payload leaves the rest of the message as it was, mask position included, so every pattern of short reads delivers the same bytes |
| `WsReading.AdvanceIsEntered` | src/github.com/gorilla/websocket/conn.go:557-684 | advanceFrame is skipping, a header, and what follows it |
| `WsFrames.MaskCancels` | src/github.com/gorilla/websocket/conn.go:128-134 | masking twice with the same key and position gives the bytes back |
| `WsFrames.MaskSplits` | src/github.com/gorilla/websocket/conn.go:128-134 | masking piece by piece, carrying the position modulo four, is masking the whole |
| `WsFrames.NothingFollowsClose` | src/github.com/gorilla/websocket/conn.go:225-229 | in a legal run of frames a Close frame can only be the last |
| `WsReader.Reader.ReadFull` | src/github.com/gorilla/websocket/conn.go:542-555 | exactly the next n bytes over any short reads, or an unexpected end of stream |
| `WsReader.Reader.CheckFrame` | src/github.com/gorilla/websocket/conn.go:574-604 | the violation that the first two header bytes amount to, in the order of the checks, or the new length and final flag |
| `WsReader.Reader.ReadLengthAndKey` | src/github.com/gorilla/websocket/conn.go:606-632 | extended length, mask flag and masking key as the total header parser gives them |
| `WsReader.Reader.ReadHeader` | src/github.com/gorilla/websocket/conn.go:567-632 | the whole header step refines the header parser on the bytes that remain |
| `WsReader.Reader.HandleControl` | src/github.com/gorilla/websocket/conn.go:647-681 | the unmasked payload of a control frame reaches its handler, whose error is returned; Close becomes its error |
| `WsReader.Reader.EnterFrame` | src/github.com/gorilla/websocket/conn.go:634-684 | what follows the header: the limit, or the control payload and its handler, with the Close frame sent in reply |
| `WsReader.Reader.AdvanceFrame` | src/github.com/gorilla/websocket/conn.go:557-689 | the imperative step refines the total function Advance on the connection state: same result, same new state, same payloads taken by handlers, and in reply a Close frame with code 1002 for a protocol error, with 1009 for the limit, without a code for a Close frame, and none otherwise |
| `WsReader.Reader.NextReader` | src/github.com/gorilla/websocket/conn.go:699-715 | finds the next data message as NextMessage does, resets the length count, is stuck on an earlier error, and has sent the Close frame that its error calls for |
| `WsReader.Reader.TakePayload` | src/github.com/gorilla/websocket/conn.go:730-741 | hands out payload bytes and leaves the rest of the message unchanged |
| `WsReader.Reader.Read` | src/github.com/gorilla/websocket/conn.go:722-762 | one Read of any buffer size, empty ones included, delivers a prefix of what the message still holds; a stale reader gets EOF; an error is sticky |
| `WsReader.Reader.ReadAll` | src/github.com/gorilla/websocket/conn.go:766-774 | reading to the end, in buffers of any size, yields exactly what is left of the message |
| `WsReader.Reader.ReadMessage` | src/github.com/gorilla/websocket/conn.go:766-774 | one whole message, the error of NextReader, or a message cut short by the end of the stream and returned without an error |
| `WsReader.Reader.ReadMessages` | src/github.com/gorilla/websocket/conn.go:766-774 | message after message: exactly the session that the byte stream amounts to, the type and data of a message cut short included |
| `WsWriter.MaskBytes` | src/github.com/gorilla/websocket/conn.go:128-134 | in place: the range is masked, every other byte is untouched |
| `WsWriter.Writer.LockedWrite` | src/github.com/gorilla/websocket/conn.go:221-245 | a frame written under the mutex goes out whole and is added to the frames, or a failed write leaves them alone; nothing goes out after a Close |
| `WsWriter.Writer.Record` | src/github.com/gorilla/websocket/conn.go:231-245 | a frame that went out whole keeps the wire legal |
| `WsWriter.Writer.Tear` | src/github.com/gorilla/websocket/conn.go:234-241 | a part of a frame that went out leaves the beginning of one legal frame at the end of the wire |
| `WsWriter.Writer.WriteControl` | src/github.com/gorilla/websocket/conn.go:249-304 | a control frame of at most 125 bytes is added between data frames without touching the data messages |
| `WsWriter.Writer.LockedControl` | src/github.com/gorilla/websocket/conn.go:290-303 | the part of WriteControl under the mutex |
| `WsWriter.Writer.PutHeader` | src/github.com/gorilla/websocket/conn.go:345-375 | the header is laid out backwards so that it ends exactly where key or payload begins |
| `WsWriter.Writer.PutMask` | src/github.com/gorilla/websocket/conn.go:377-380 | key before the payload, payload masked in place, header untouched |
| `WsWriter.Writer.PutFrame` | src/github.com/gorilla/websocket/conn.go:345-388 | what lies in the buffer, with the extra slice, is the encoding of one frame with the pending bytes as payload |
| `WsWriter.Writer.FlushFrame` | src/github.com/gorilla/websocket/conn.go:333-398 | a flush adds the pending bytes and the extra slice to the open message, completes it when final, refuses an invalid control frame, and never meets the branch for extra data in client mode |
| `WsWriter.Writer.SendFrame` | src/github.com/gorilla/websocket/conn.go:345-398 | the flush of a valid frame, with the state it leaves for the next one |
| `WsWriter.Writer.NextWriter` | src/github.com/gorilla/websocket/conn.go:314-331 | the previous message is completed and a new empty one of the given type is open |
| `WsWriter.Writer.NCopy` | src/github.com/gorilla/websocket/conn.go:416-428 | one round copies a non-empty part, flushing a full buffer first |
| `WsWriter.Writer.WriteBytes` | src/github.com/gorilla/websocket/conn.go:430-455 | the slice is appended to the open message, large slices of a server going out directly; final completes it |
| `WsWriter.Writer.WriteString` | src/github.com/gorilla/websocket/conn.go:461-477 | the string is appended to the open message |
| `WsWriter.Writer.ReadFrom` | src/github.com/gorilla/websocket/conn.go:479-502 | everything the source yields, in any pieces, is appended to the open message, also when the source then fails, whose error is returned |
| `WsWriter.Writer.Close` | src/github.com/gorilla/websocket/conn.go:504-509 | the open message is complete on the wire, exactly as it was written |
| `WsWriter.Writer.WriteMessage` | src/github.com/gorilla/websocket/conn.go:513-528 | one complete message is added, after the one that was open |
| `WsFormat.WireFormat` | src/github.com/gorilla/websocket/conn.go:345-388 | every frame on the wire in plain numbers: the final bit, the reserved bits and the opcode; the mask bit and the length in its three forms, the high byte first; the key; and every bit of a masked payload byte set if and only if exactly one of the bit sent and the key's bit is |
| `WsFormat.MaskedFrame` | src/github.com/gorilla/websocket/conn.go:128-134 | the final text message "a" of a client under the key 1, 2, 3, 4 is 81 81 01 02 03 04 60 |
| `Bytes.XorBit` | src/github.com/gorilla/websocket/conn.go:128-134 | a bit of an exclusive or is set if and only if it is set in exactly one of the two bytes |
| `WsFormat.LegalMeans` | src/github.com/gorilla/websocket/conn.go:574-632 | which frames are legal, opcode by opcode, with literal numbers |
| `WsFormat.Verdict` | src/github.com/gorilla/websocket/conn.go:574-632 | which protocol error any other frame gets, in the order of the checks |
| `WsFormat.CloseSays` | src/github.com/gorilla/websocket/conn.go:672-681 | over streams: legal frames that end in a Close frame with the bytes code / 256 and code % 256 and a text end the session with exactly that code and text, for every code and text; a payload of less than two bytes gives 1005 and no text |
| `KeyStore.ServiceRun` | src/schedule/timer.go:26-49 | the whole service from a resynchronisation on, with a tick every 60 ms: each message at least a second away is sent exactly once, less than 100 ms before and less than 1100 ms after its due time |
| `Schedule.Guarantee` | src/schedule/schedule.go:163-171 | a fresh message accepted during a regular run is sent exactly once, at once if due within a second and otherwise within the bounds around its due time |
| `Schedule.GuaranteeFromFirstSync` | src/schedule/timer.go:26-33 | the same for a schedule that was waiting before the first resynchronisation and is due in or after that tick's bucket |
| `Schedule.SentOnTime` | src/schedule/timer.go:26-49 | a waiting schedule is sent exactly once, less than 100 ms early and less than 1100 ms late |
| `Schedule.SentExactlyOnce` | src/schedule/timer.go:26-49 | under any tick times that keep resynchronisations within 31100 ms, a schedule ahead of the clock is sent exactly once, at a tick that finds the clock in its bucket, and not before |
| `Schedule.NoBucketSkipped` | src/schedule/timer.go:8-33 | while resynchronisations are at most 31100 ms apart the clock never jumps over a bucket |
| `Schedule.SkipPastTheBound` | src/schedule/timer.go:26-33 | any gap above 31100 ms skips a bucket, for a clock at the end of one |
| `Schedule.GapExactly` | src/schedule/timer.go:26-33 | a gap between resynchronisations keeps every clock from skipping a bucket if and only if it is at most 31100 ms |
| `Schedule.TrailsThroughout` | src/schedule/timer.go:26-33 | at every tick of a regular run the clock is between real time less 1000 ms and real time |
| `Schedule.CutToThirtyDays` | src/schedule/keystore.go:28-32 | an expiration of thirty days and 1200 ms or more is cut, so that in every regular run the message is sent, once, over 100 ms before the time asked for |
| `Schedule.ThirtyDaysExactly` | src/schedule/keystore.go:28-32 | every regular run sends the message once, less than 100 ms before and less than 1100 ms after the time asked for, if and only if it asked for at most thirty days |
| `Schedule.EarlyRunIsEarly` | src/schedule/keystore.go:28-32 | for every longer expiration, a run of 60 ms ticks in which the message is sent 100 ms early or more |
| `KeyStore.IndexThroughout` | src/schedule/keystore.go:20-61 | over any run of puts and firing ticks the two maps stay inverse, with the table the events alone determine, until the run ends or a put re-files the sole entry of its own bucket |
| `KeyStore.PutTwice` | src/schedule/keystore.go:20-61 | an id put twice for one time into an empty store: the second put crashes |
| `KeyStore.IndexMeans` | src/schedule/keystore.go:15-16 | under the index invariant an id is filed under t if and only if it occurs exactly once in bucket t and in no other |
| `KeyStore.RemoveFrom` | src/schedule/keystore.go:38-48 | the removal loop takes out every occurrence of the id, although it stops at the first |
| `KeyStore.FiledIsIndex` | src/schedule/keystore.go:34-55 | filing an id keeps the two maps inverse |
| `KeyStore.ClearedIsIndex` | src/schedule/keystore.go:38-48 | taking an id out keeps the two maps inverse, with no empty bucket left |
| `KeyStore.FiredIsIndex` | src/schedule/timer.go:39-47 | dropping a fired bucket keeps the two maps inverse |
| `KeyStore.Wheel.Put` | src/schedule/keystore.go:20-61 | the id moves to its new bucket and nothing else changes, or put crashes, exactly when the id is the sole entry of that very bucket |
| `KeyStore.Wheel.Unfile` | src/schedule/keystore.go:38-48 | the id is gone from its old bucket, and the bucket with it if it was the last |
| `KeyStore.Wheel.Fire` | src/schedule/timer.go:39-47 | every id of the bucket is found, sent once and dropped |
| `KeyStore.Wheel.TickingFunc` | src/schedule/timer.go:26-49 | one tick: exactly the ids waiting in the clock's bucket are sent, once each |
| `KeyStore.Wheel.Accept` | src/schedule/schedule.go:163-171 | a message below the 1000 ms threshold is sent at once, any other is filed under its due time |
| `KeyStore.Wheel.Run` | src/schedule/timer.go:14-49 | the imperative wheel sends each id exactly at the times that the clock alone determines |
| `Deframer.Deliver` | src/clustering/network.go:475-576 | for any messages of 1 to 65535 bytes and any chunking, successive readData calls return a prefix of the messages in order, and all of them if and only if none is longer than 4096 bytes and no read made with nothing carried over returns a single byte |
| `Deframer.Node.ReadData` | src/clustering/network.go:475-576 | one call on a stream of messages of 1 to 65535 bytes: from 0x8000 bytes on it returns nothing and loses what it had read; above 4096, or after a lone byte, it crashes; otherwise it returns the message and loses no byte after it |
| `Deframer.LargePieces` | src/clustering/network.go:475-576 | pieces of two or more bytes always meet the condition of Deliver |
| `Deframer.FirstByteAlone` | src/clustering/network.go:504-521 | a first read of one byte: the message is not delivered |
| `Deframer.LongMessage` | src/clustering/network.go:537-573 | a message of 5000 bytes is not delivered |
| `Deframer.NegativeLength` | src/clustering/network.go:520-527 | nor is one of 0x8000 bytes |
| `Deframer.Node.Receive` | src/clustering/network.go:514-576 | with the first bytes in hand: nothing for a negative length, a crash for one above the buffer, else the message they begin is returned and what follows it carried over, in as many reads as counted beforehand |
| `Deframer.Node.Begin` | src/clustering/network.go:480-512 | the bytes to start from: the carry-over, the carry-over with a read behind it, or a fresh read |
| `Deframer.Node.Whole` | src/clustering/network.go:528-536 | a message wholly in the buffer is returned and everything after it carried over |
| `Deframer.Node.NextPiece` | src/clustering/network.go:541-573 | one round of the loop completes the message and carries the rest, or has more of it than before |
| `Deframer.Node.Complete` | src/clustering/network.go:555-565 | the last piece goes behind what was there, the surplus into the carry-over buffer |
| `Deframer.Node.Grow` | src/clustering/network.go:566-572 | a piece goes behind what is there, in bounds |
| `Deframer.Node.Finish` | src/clustering/network.go:541-576 | the loop ends with the whole message, in bounds |
| `Deframer.AppendBuffer` | src/clustering/bytesutils.go:3-7 | copies the range and nothing else, or goes out of bounds exactly when it does not fit |
| `Deframer.FramedBytes` | src/clustering/network.go:624-629 | a message goes out behind two bytes that are its length, the high byte first |
| `Deframer.StreamHead` | src/clustering/network.go:624-629 | the first two bytes of a stream give the length of its first message |
| `Message.DeliverToSlave` | src/clustering/clusterqueue.go:24-27 | master-to-slave delivery: accepted one-line messages come out of encoding, framing, any chunking, deframing, dispatch and decoding as equal objects in order, all of them if and only if none takes more than 4096 bytes and no read with nothing carried over returns a single byte |
| `Message.PayloadRoundTrip` | src/message/message.go:78-93 | an accepted message survives encoding and decoding if and only if neither its endpoint nor its body contains a newline |
| `Message.NewlineBody` | src/message/message.go:78-93 | a message with a newline in its body is accepted and decoded as another |
| `Message.AcceptedExactly` | src/message/message.go:47-59 | a message is accepted if and only if its endpoint is not empty, its type is between 100 and 109 and its expiration between 0 and 7776000000 ms, and otherwise refused with the first error that applies |
| `Message.PayloadParts` | src/message/message.go:78-93 | the parts of a payload are type, endpoint, body and expiration, in this order |
| `Message.InBytes` | src/clustering/clusterqueue.go:24-27 | one message to a slave byte for byte, the type byte 151 first |
| `Message.ReceivesWhatWasSent` | src/clustering/network.go:713-727 | the type byte dispatches a schedule to the decoder, which returns the object that was sent |
| `Message.ItoaReadsBack` | src/message/message.go:78-93 | numbers are read back from their decimal form |
| `Message.PartsHaveNoNewline` | src/message/message.go:83-84 | no part of a split payload contains a newline |
| `Handshake.Agreement` | src/clustering/network.go:335-473 | over every run, with timeouts, lost connections and broken-off writes anywhere: a slave that reports success has read exactly 100, the secret if it has one, the name and 220 from a master that reports success, and either reports success only if the master sent the slave's own secret, where the slave has one |
| `Handshake.EveryRunKeeps` | src/clustering/network.go:335-473 | the invariant of every reachable state: where each process stands determines what the master has written and what the slave has read |
| `Handshake.OneInFlight` | src/clustering/network.go:335-473 | along any run that ends in success for the slave there is never more than one message under way, both directions together |
| `Handshake.TrackOrDoomed` | src/clustering/network.go:335-473 | every reachable state is one of the fifteen of the undisturbed handshake, or one side has given up for good |
| `Handshake.SlaveCanSucceed` | src/clustering/network.go:391-473 | a run in which the slave succeeds exists if and only if it admits the master's secret and both names have 1 to 64 bytes |
| `Handshake.MasterCanSucceed` | src/clustering/network.go:335-389 | a run in which the master succeeds exists if and only if it is admitted, and then also one in which the slave has timed out |
| `Handshake.MasterAlone` | src/clustering/network.go:371-388 | such a run: the master takes the slave's timeout note for its name |
| `Handshake.CanCrash` | src/clustering/network.go:578-611 | a run with a crash exists if and only if a secret or name that gets to be sent is longer than the 64 bytes of the buffer it is copied into |
| `Handshake.MasterUnderstands` | src/clustering/network.go:335-389 | what the master makes of each answer: 201 asks for the secret, 200 for the name, 210 admits, anything else is unknown or a refusal; any answer is taken for the name |
| `Handshake.SlaveUnderstands` | src/clustering/network.go:391-473 | what the slave makes of each message, with the notices 203 and 212 for a wrong request and a wrong secret |
| `Handshake.WhatIsWritten` | src/clustering/network.go:335-473 | the bytes each process writes while all goes well |
| `Handshake.SlaveTells` | src/clustering/network.go:391-473 | which notice a waiting slave writes: 202, 211 or 221 for a lost connection, 204, 213 or 222 for a timeout |
| `Handshake.MasterTells` | src/clustering/network.go:371-378 | the master, waiting for the name, writes 221 for a lost connection and 222 for a timeout, and otherwise nothing |
| `Handshake.SlaveCannotWrite` | src/clustering/network.go:391-473 | the notices after a write that failed |
| `Handshake.NoticeIsLast` | src/clustering/network.go:391-473 | after its notice the slave is done |
| `Packets.PacketRoundTrip` | src/github.com/ziutek/mymysql/native/packet.go:23-236 | a payload of any length from 1, exact multiples of 0xffffff included, written in any parts and read over any short reads, comes back unchanged; the bytes after its packets are left alone and both sequence numbers end at the first one plus the length divided by 0xffffff plus one, modulo 256 |
| `Packets.PktWriter.Write` | src/github.com/ziutek/mymysql/native/packet.go:194-236 | any part of the payload is added to the packets, failing exactly when the announced length is exceeded |
| `Packets.PktWriter.Complete` | src/github.com/ziutek/mymysql/native/packet.go:225-235 | once everything announced is written, the wire holds exactly the packets of the payload, the empty trailer included, all flushed, and the sequence number has counted them |
| `Packets.PktWriter.WriteHeader` | src/github.com/ziutek/mymysql/native/packet.go:181-192 | three length bytes and the sequence number, which then advances modulo 256 |
| `Packets.PktWriter.PutSome` | src/github.com/ziutek/mymysql/native/packet.go:199-224 | one round opens a packet if need be and fills what fits |
| `Packets.PacketNumbers` | src/github.com/ziutek/mymysql/native/packet.go:181-236 | on the wire of a payload of any length: packet k stands at byte k * 0x1000003 and has the number (sequence + k) % 256, its length in three bytes, the low one first, and the payload from k * 0xffffff on; and there is nothing else |
| `Packets.HeaderBytes` | src/github.com/ziutek/mymysql/native/packet.go:181-192 | three bytes of length, the low one first, and the number |
| `Packets.PacketsSplit` | src/github.com/ziutek/mymysql/native/packet.go:194-236 | the packets of a payload are full packets followed by the packets of the rest |
| `Packets.HeaderOf` | src/github.com/ziutek/mymysql/native/packet.go:23-48 | the first four bytes of a packeted payload give the packet's length and number |
| `Packets.PktReader.ReadHeader` | src/github.com/ziutek/mymysql/native/packet.go:23-48 | length, last-packet flag and next sequence number, or the error for a short stream or a wrong number |
| `Packets.PktReader.ReadFull` | src/github.com/ziutek/mymysql/native/packet.go:50-71 | exactly the next n bytes of the payload across packet boundaries, or the end of the payload |
| `Packets.PktReader.ReadByte` | src/github.com/ziutek/mymysql/native/packet.go:73-87 | the next byte of the payload; before an empty trailer packet it runs into whatever follows |
| `Packets.PktReader.UnreadByte` | src/github.com/ziutek/mymysql/native/packet.go:150-155 | gives the byte back to the payload |
| `Packets.PktReader.ReadAll` | src/github.com/ziutek/mymysql/native/packet.go:89-109 | the rest of the payload, the empty trailer consumed |
| `Packets.PktReader.EofMeans` | src/github.com/ziutek/mymysql/native/packet.go:157-165 | checkEof passes if and only if everything was read, the empty trailer included: for a payload read to its end, if and only if it did not fill whole packets |
| `Codecs.LcbRoundTrip` | src/github.com/ziutek/mymysql/native/codecs.go:101-157 | a length-coded integer is read back exactly, for every uint64, from exactly lenLCB bytes |
| `Codecs.ReadNullLcb` | src/github.com/ziutek/mymysql/native/codecs.go:101-116 | the integer or null at the front of the payload, across packet boundaries |
| `Codecs.DecodeU64` | src/github.com/ziutek/mymysql/native/codecs.go:38-43 | the little-endian value of the bytes |
| `Codecs.ReadColumn` | src/github.com/ziutek/mymysql/native/codecs.go:159-168 | a nullable column that was written is read back |
| `Codecs.GetEofPacket` | src/github.com/ziutek/mymysql/native/result.go:182-204 | at most two 16-bit words, either of which may be missing, are taken for the end of the rows; anything else is an error |
| `Codecs.GetTextRow` | src/github.com/ziutek/mymysql/native/result.go:75-136 | what the dispatch on the first byte, getEofPacket and getTextRowPacket make of any row: the row, or the error for a packet that is too long |
| `Codecs.TextRowRoundTrip` | src/github.com/ziutek/mymysql/native/result.go:266-281 | a row of nullable byte strings is recovered if and only if its first column is null or below 2^24 bytes and its payload is not a multiple of 0xffffff; any other row is refused as too long |
| `Codecs.RowsInOrder` | src/github.com/ziutek/mymysql/native/result.go:266-281 | rows are encoded column by column in order, and a null is the byte 251 |
| `ExecuteMeaning.LcbInBytes` | src/github.com/ziutek/mymysql/native/codecs.go:126-157 | a length-coded integer takes the shortest of its four forms, with the tags 252, 253 and 254 |
| `Codecs.FullPacketRow` | src/github.com/ziutek/mymysql/native/result.go:266-281 | one column of 0xfffffb bytes is such a row |
| `Codecs.LongFirstColumn` | src/github.com/ziutek/mymysql/native/result.go:106-110 | a first column of 2^24 bytes is refused |
| `Durations.EncodeU32` | src/github.com/ziutek/mymysql/native/codecs.go:71-76 | four little-endian bytes in place, the rest of the buffer untouched |
| `Durations.EncodeDuration` | src/github.com/ziutek/mymysql/native/codecs.go:290-314 | the buffer holds the TIME encoding, with the sign byte that was there before unless the duration is negative |
| `Durations.DurationRoundTrip` | src/github.com/ziutek/mymysql/native/codecs.go:254-314 | a duration is read back unchanged if and only if it is not zero, not the least int64, and negative or written over a clear sign byte |
| `Durations.LeastDuration` | src/github.com/ziutek/mymysql/native/codecs.go:290-314 | the least int64 is read back as another duration |
| `Durations.OrdinaryDuration` | src/github.com/ziutek/mymysql/native/codecs.go:254-288 | every other duration keeps its magnitude and takes the sign of the byte sent |
| `Durations.DurationLength` | src/github.com/ziutek/mymysql/native/codecs.go:322-334 | lenDuration is the number of bytes encoded, for every duration |
| `Execute.SendCmdExec` | src/github.com/ziutek/mymysql/native/prepared.go:40-88 | for every list of parameters whose lengths Len judges right, typed nulls included, the announced length is exactly what is written, so the writer never fails, the command goes out in packets numbered from zero and is flushed, and bit i of the bitmap is set exactly when parameter i is null |
| `ExecuteMeaning.ExecuteAtServer` | src/github.com/ziutek/mymysql/native/prepared.go:40-88 | the whole way: whatever is bound, of values whose length Len judges right and raw ones declared as strings, a server that follows the protocol reads from the packets the command 0x17, the statement id, flags 0, one iteration, which parameters are null, the type code and sign of each and each value by its type |
| `ExecuteMeaning.ServerUnderstands` | src/github.com/ziutek/mymysql/native/prepared.go:40-88 | the same for the payload, types sent or not |
| `ExecuteMeaning.ValueReads` | src/github.com/ziutek/mymysql/native/paramvalue.go:56-161 | every value is read back by the rules of its protocol type |
| `ExecuteMeaning.RawReads` | src/github.com/ziutek/mymysql/native/paramvalue.go:56-161 | a raw value is read back as its bytes if and only if it is declared with a type whose values are length-encoded strings |
| `ExecuteMeaning.MomentAtServer` | src/github.com/ziutek/mymysql/native/codecs.go:395-397 | the microseconds of a time are a whole second exactly from 999999500 ns on |
| `ExecuteMeaning.DurationAtServer` | src/github.com/ziutek/mymysql/native/codecs.go:290-314 | a server that follows the protocol understands the duration that was bound if and only if it has no part of a second, is not a number of whole days, and is negative or sent over a clear sign byte |
| `ExecuteMeaning.WholeDay` | src/github.com/ziutek/mymysql/native/codecs.go:290-314 | one day is sent in a form the protocol does not have |
| `ExecuteMeaning.ClockMeans` | src/github.com/ziutek/mymysql/native/codecs.go:290-314 | hour, minute and second, in this order |
| `Execute.LenIsExact` | src/github.com/ziutek/mymysql/native/paramvalue.go:17-54 | Len is the number of bytes writeValue writes, if and only if the value is not a raw one declared with a type Len treats specially |
| `Execute.RawTiny` | src/github.com/ziutek/mymysql/native/paramvalue.go:17-54 | a raw TINY value of one byte takes two and is announced as one |
| `Execute.WrittenAsItself` | src/github.com/ziutek/mymysql/native/paramvalue.go:56-161 | every bound value is written, and by the case that fits it |
| `Execute.OnlyNullIsEmpty` | src/github.com/ziutek/mymysql/native/paramvalue.go:56-161 | only a null takes no bytes |
| `Execute.Measure` | src/github.com/ziutek/mymysql/native/prepared.go:42-54 | the first loop computes the length of all values and the NULL bitmap |
| `Execute.WriteValue` | src/github.com/ziutek/mymysql/native/paramvalue.go:56-161 | the dispatch on the type code writes the value through the scratch buffer and leaves in it the byte that Scratch says |
| `Execute.WriteNumber` | src/github.com/ziutek/mymysql/native/codecs.go:50-97 | little-endian numbers through the scratch buffer, the second byte of which then holds theirs |
| `Execute.WriteLcb` | src/github.com/ziutek/mymysql/native/codecs.go:126-143 | the bytes of a length-coded integer are added, with the scratch byte they leave |
| `Execute.WriteBin` | src/github.com/ziutek/mymysql/native/codecs.go:183-186 | length-coded bytes are added, with the scratch byte their length leaves |
| `Execute.EncodeNonzeroTime` | src/github.com/ziutek/mymysql/native/codecs.go:375-393 | the buffer holds the encoding of the moment, as far as it is needed |
| `Execute.WriteMoment` | src/github.com/ziutek/mymysql/native/codecs.go:399-451 | times and dates are added, with the scratch byte they leave |
| `Execute.WriteDuration` | src/github.com/ziutek/mymysql/native/codecs.go:316-320 | a duration is added, over the sign byte that was there unless it is negative |
| `Execute.WriteTypes` | src/github.com/ziutek/mymysql/native/prepared.go:67-72 | the type codes are added, and the last one stays in the scratch buffer |
| `Execute.BitmapStep` | src/github.com/ziutek/mymysql/native/prepared.go:49-53 | one parameter sets exactly its own bit |
| `Execute.SetBitSets` | src/github.com/ziutek/mymysql/native/prepared.go:50-52 | or-ing a mask sets one bit and keeps the others |
| `Execute.DurationKeepsSign` | src/github.com/ziutek/mymysql/native/codecs.go:290-320 | a positive duration at any place keeps its sign if and only if the last value before it that fills the second byte of the scratch buffer filled it with zero or, if there is none, no type codes were just sent or the last has a zero high byte |
| `Execute.ValuesFrom` | src/github.com/ziutek/mymysql/native/prepared.go:76-79 | the values sent are those before a parameter and then it and the rest, written over what the earlier ones left in the scratch buffer |
| `Execute.NegatedDuration` | src/github.com/ziutek/mymysql/native/codecs.go:290-320 | after the 16-bit number 300, one nanosecond is sent as minus one nanosecond |
| `Execute.NegatedByTypedNull` | src/github.com/ziutek/mymysql/native/binding.go:19-37 | a duration first and a nil pointer to an unsigned 16-bit number last, types being sent: the duration is not read back |
| `ReplyLock.ReadReply` | src/github.com/ziutek/mymysql/thrsafe/thrsafe.go:124-186 | for every reply, read in order, ends of rows read again at will: the mutex is given back exactly once, or never, exactly when an error packet or an unreadable one comes between two results; the next command is refused exactly when one came within or after rows |
| `ReplyLock.ReadRows` | src/github.com/ziutek/mymysql/thrsafe/thrsafe.go:149-167 | reading a result to its end, and again, keeps the lock discipline |
| `ReplyLock.NilRows` | src/github.com/ziutek/mymysql/thrsafe/thrsafe.go:149-167 | a nil row after any successful command: the lock is given back with the rest of the reply unread, or the call is fatal, exactly when the reply was over; a second call is always fatal |
| `ReplyLock.ErrorAfterStatus` | src/github.com/ziutek/mymysql/thrsafe/thrsafe.go:173-178 | a status with more to come and then an error leaves the mutex locked |
| `ReplyLock.ErrorWithinRows` | src/github.com/ziutek/mymysql/native/mysql.go:394-414 | a row and then an error leaves the connection refusing every command |
| `ReplyLock.Conn.Start` | src/github.com/ziutek/mymysql/thrsafe/thrsafe.go:124-137 | the lock is held afterwards exactly while packets of the reply are unread; an unread reply refuses the command and frees the lock |
| `ReplyLock.Conn.ScanRow` | src/github.com/ziutek/mymysql/thrsafe/thrsafe.go:149-167 | keeps the lock invariant and never unlocks a free mutex, also after the end of rows; into a row of the wrong length it gives the lock back with the reply unread |
| `ReplyLock.Conn.ScanNilRow` | src/github.com/ziutek/mymysql/thrsafe/thrsafe.go:149-167 | with a nil row ScanRow unlocks, whether or not the lock is held |
| `ReplyLock.Conn.NextResult` | src/github.com/ziutek/mymysql/thrsafe/thrsafe.go:173-186 | keeps the lock invariant; an error, or a packet that cannot be read, leaves the mutex locked; without more results nothing happens |
| `ReplyLock.Conn.GetResponse` | src/github.com/ziutek/mymysql/native/mysql.go:341-348 | the first packet of a result decides status, unread flag and error |
| `ReplyLock.Conn.NativeScanRow` | src/github.com/ziutek/mymysql/native/mysql.go:394-414 | one row, the end of the rows, a read after the end, a row of the wrong length, or an error, with the packets consumed by each |
| `SqlLiteral.StatementReadsBack` | src/github.com/ziutek/mymysql/godrv/driver.go:51-95 | MySQL's scanner reads the tokens that were meant, where null is NULL, an integer any numeral worth it and a bool one worth 1 or 0, question marks in arguments included, if and only if no two adjacent question marks become quoted literals; and, strings that only white space separates being one string to MySQL, it understands what was meant if and only if no two question marks with nothing but white space between them do |
| `SqlLiteral.UnquotedSpells` | src/github.com/ziutek/mymysql/godrv/driver.go:51-95 | an unquoted argument is spelt NULL, as a numeral worth the integer it is, negative ones included, or as one worth 1 or 0 |
| `SqlLiteral.MeantReadsBack` | src/github.com/ziutek/mymysql/godrv/driver.go:51-95 | the same theorem over the tokens in the spelling the driver chooses |
| `SqlLiteral.NumbersInBytes` | src/github.com/ziutek/mymysql/godrv/driver.go:60-92 | ?,? with minus five and true is -5,1 and so on, byte for byte |
| `SqlLiteral.StringInBytes` | src/github.com/ziutek/mymysql/mysql/utils.go:248-293 | both escapes of quotes and the backslash, byte for byte |
| `SqlLiteral.ControlsInBytes` | src/github.com/ziutek/mymysql/mysql/utils.go:248-293 | both escapes of the bytes 0, 10, 13 and 26 |
| `SqlLiteral.ParseQuery` | src/github.com/ziutek/mymysql/godrv/driver.go:51-95 | no arguments: the query; quotes in it: the empty text; too few question marks: an error; else the query with its first n question marks replaced in order |
| `SqlLiteral.LiteralReadsBack` | src/github.com/ziutek/mymysql/mysql/utils.go:248-293 | escaped text between quotes is scanned as one literal with that text for its value, in both backslash modes, if and only if no quote follows |
| `SqlLiteral.LexThrough` | src/github.com/ziutek/mymysql/mysql/utils.go:248-293 | the scanner reads escaped text back and goes on with whatever follows |
| `SqlLiteral.EscapeText` | src/github.com/ziutek/mymysql/mysql/utils.go:248-293 | both escape loops, which copy stretches, escape byte by byte |
| `SqlLiteral.ScanWritten` | src/github.com/ziutek/mymysql/godrv/driver.go:65-87 | any tokens written one after the other are scanned as those tokens, touching literals merged |
| `SqlLiteral.MergeMeans` | src/github.com/ziutek/mymysql/godrv/driver.go:51-95 | merging changes nothing if and only if no two literals touch |
| `SqlLiteral.JoinsMean` | src/github.com/ziutek/mymysql/godrv/driver.go:51-95 | tokens are unchanged by both kinds of joining if and only if no two literals have nothing but white space between them |
| `SqlLiteral.MeantLoose` | src/github.com/ziutek/mymysql/godrv/driver.go:60-92 | that is so if and only if no two question marks for quoted literals have nothing but white space between them |
| `SqlLiteral.TwoBecomeOne` | src/github.com/ziutek/mymysql/godrv/driver.go:60-92 | two strings for adjacent question marks are read as one string with a quote in it |
| `SqlLiteral.BlankBetween` | src/github.com/ziutek/mymysql/godrv/driver.go:60-92 | two strings for ? ? are scanned as meant and understood otherwise |
| `SqlLiteral.Join` | src/github.com/ziutek/mymysql/godrv/driver.go:38-49 | the concatenation of the parts |
| `SqlLiteral.ToFirstMark` | src/github.com/ziutek/mymysql/godrv/driver.go:60-92 | substituting for the first question mark leaves the substitution in the rest of the query |
| `Utf8.AutomatonCorrect` | src/github.com/gorilla/websocket/examples/autobahn/server.go:215-246 | after any bytes the automaton accepts if and only if they are well formed under section 4 of RFC 3629, and has rejected if and only if nothing can make them so |
| `Utf8.EncodingsAreChars` | src/github.com/gorilla/websocket/examples/autobahn/server.go:215-246 | every code point but the surrogates is encoded by section 3 of RFC 3629 as a character that the automaton's grammar allows |
| `Utf8.CharsAreEncodings` | src/github.com/gorilla/websocket/examples/autobahn/server.go:215-246 | and nothing else is a character: each is the encoding of its code point |
| `Utf8.Validate` | src/github.com/gorilla/websocket/examples/autobahn/server.go:176-192 | for any division into reads, the text goes through without an error if and only if it is well formed |
| `Utf8.Validator.Read` | src/github.com/gorilla/websocket/examples/autobahn/server.go:176-192 | one Read reports an error exactly when the bytes so far cannot be completed, or are incomplete at the end |
| `Utf8.CodePointAtAccept` | src/github.com/gorilla/websocket/examples/autobahn/server.go:237-246 | whenever the decoder is back at accept, x is the code point of the character that just ended |
| `Utf8.AcceptedCodePoint` | src/github.com/gorilla/websocket/examples/autobahn/server.go:237-246 | on each return to accept, whatever non-empty bytes were read, they end in a character and x is its code point |
| `Utf8.CharDecodes` | src/github.com/gorilla/websocket/examples/autobahn/server.go:237-246 | one character takes the decoder from accept to accept |
| `Utf8.RejectAbsorbs` | src/github.com/gorilla/websocket/examples/autobahn/server.go:215-246 | rejection is absorbing |
| `Utf8.TableClass` | src/github.com/gorilla/websocket/examples/autobahn/server.go:216-224 | the table's byte classes, by range |
| `Utf8.TableNext` | src/github.com/gorilla/websocket/examples/autobahn/server.go:225-229 | the table's transitions, by what each state waits for |
| `Utf8.LastChar` | src/github.com/gorilla/websocket/examples/autobahn/server.go:176-192 | every well-formed text but the empty one ends in a character |
| `Queue.NothingLostOrReordered` | src/queue/queue.go:52-96 | with pushes serialised through PushMessage and any number of poppers, over every interleaving of the lock-protected steps, what was popped is a prefix of what was pushed and the queue holds the rest |
| `Queue.SoundExactly` | src/queue/queue.go:52-96 | over every interleaving of any number of PushMessage, PushFront and PopMessage calls, the queue is sound at every moment if and only if every store finds a ring that is not full and, in front, no popper that holds another message |
| `Queue.StepSound` | src/queue/queue.go:52-96 | every step but a store keeps the queue sound, and a store does if and only if it meets that condition |
| `Queue.StoreSound` | src/queue/queue.go:58-61 | a store at the back keeps it sound if and only if the ring is not full at that moment |
| `Queue.FrontStoreSound` | src/queue/queue.go:72-75 | a store in front does if and only if the ring is not full and no popper holds another message |
| `Queue.GrandmaQueue.PushMessage` | src/queue/queue.go:52-64 | appends, or panics exactly when L-1 messages are queued |
| `Queue.GrandmaQueue.PushFront` | src/queue/queue.go:66-78 | prepends, or panics exactly when L-1 messages are queued |
| `Queue.GrandmaQueue.PopMessage` | src/queue/queue.go:80-96 | removes and returns the head |
| `Queue.GrandmaQueue.IsEmpty` | src/queue/queue.go:98-104 | no message is queued |
| `Queue.GrandmaQueue.IsFull` | src/queue/queue.go:106-112 | L-1 messages are queued |
| `Queue.WindowPush` | src/queue/queue.go:52-64 | the slots from front to pointer, around the end, grow by one at the back |
| `Queue.WindowPushFront` | src/queue/queue.go:66-78 | and by one at the front |
| `Queue.WindowPop` | src/queue/queue.go:80-96 | and shrink by their first |
| `Queue.FullMeans` | src/queue/queue.go:98-112 | the two index tests mean full and empty |
| `Queue.TwoPushersLoseAll` | src/queue/queue.go:52-64 | a run, for a queue of any length from empty: two pushers pass IsFull with one place left, and after both have stored the queue counts as empty with all its messages undelivered |
| `Queue.PushFrontDuringPop` | src/queue/queue.go:66-96 | a run from empty: a PushFront between the two critical sections of PopMessage loses the new message and leaves the old one delivered and still queued |

## Left out

- Sockets, dialing, deadlines, TLS, HTTP, logging and configuration: a connection is a byte sequence in arbitrary pieces.
- WsReader.Reader.AdvanceFrame: the Close frames sent in reply are recorded by their code, not by their text, and are not put on a wire: the two halves of a connection are two classes, and the frames sent in reply are among the arbitrary control frames of the writer's model. What the ping and pong handlers themselves send is theirs.
- WebSocket: a network connection that reports an error after writing everything.
- WsSession.RoundTrip: slices are addressable, that is, no slice with the buffer is longer than the largest int64.
- The scheduler before its first resynchronisation, and races of the firing goroutine with later ticks: firing is atomic with its tick.
- The database behind the scheduler: ids are fresh numbers.
- KeyStore.Wheel.Run: covers ids that are put once, as the database hands them out; `KeyStore.IndexThroughout` covers repeated puts.
- Handshake: one write arrives as one read, as long as it has at most 64 bytes; the goroutine that goes on reading after a timeout is not followed.
- Ranking of slaves in `src/clustering/manage.go`, reconnection and heartbeats.
- Condition-variable wakeups in `PopMessage`: safety only, no liveness.
- MySQL: the prepare dialogue, binary rows, null-terminated strings, `skipN` and `skipAll`, the login handshake and password scrambling.
- MySQL: calendar arithmetic (`readTime`, `readDate`), floating point and reflection; parameters are a tagged union whose numbers are given by their bits.
- ExecuteMeaning.ServerUnderstands: for raw values declared with types whose values are length-encoded strings, the others being read as something else (`ExecuteMeaning.RawReads`); ExecuteAtServer is moreover for values that `Len` judges right (`Execute.LenIsExact`).
- ReplyLock.Conn.ScanRow: what later reads make of the rest of the packet that a row of the wrong length leaves behind; calls after such an error, or after an error packet, are not covered.
- ReplyLock.Conn.NextResult: a call before the end of the rows while more results are announced, which takes a row for the head of a result.
- SqlLiteral: escaping works on bytes, as it does for UTF-8; comments and quoted identifiers of the statement are plain bytes to the scanner, and formatted times and floats are given texts without quotes.
- SqlLiteral.StatementReadsBack: for queries without quotes, since the others are not rendered.
- Deframer: messages of 65536 bytes or more, whose length wraps around, and empty ones, which the listeners ignore.
- Hashing and signatures of messages (`signature`, `message/utils.go`), typed access to JSON objects (`jsonwrapper`), parsing of mapping calls (`mapping`), the configuration file (`conf`), delivery by REST, e-mail, SMS, push, queue and WebSocket (`distributor`), the WebSocket endpoint (`ws`), and the cross-region code that is commented out.
