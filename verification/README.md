# Device flashing protocols: a Dafny model

This project models the protocol core of a desktop tool that flashes and services Android and
Qualcomm devices, and proves what that core promises. All Dafny files verify together with
`dafny verify dfyconfig.toml`.

What the source does step by step is a class or a method with loops here, proved equal to a function on
values; the properties of many calls, of whole runs and of several layers are lemmas about those
functions. Whatever the program cannot decide for itself is a script or a parameter, so that a statement
about all scripts is a statement about all surroundings: what a receive on a channel yields (a message, a
timeout, a vanished dispatcher), whether the USB interface takes a message, how large each file read and
each bulk transfer is, whether a file operation works, and in which order a hash map is walked.

## The layers

- `Adb`, `Framing`, `UsbPipe`: the ADB message, its header, and the reader that puts messages back
  together from bulk-in transfers.
- `Dispatch`: the shared connection as a step system. Connecting, invalidating and clearing under the
  cache lock, one reader per connection, opening and dropping streams; every interleaving of these steps
  is a run.
- `StreamSpec`, `UsbStream`, `StreamOpening`, `StreamRuns`, `StreamLoops`, `StreamEnds`, `StreamPacing`,
  `StreamWrites`, `StreamOutcomes`, `StreamAddresses`: one stream on that connection. `StreamSpec` says what
  a call does, the class `UsbStream` does it in place, `StreamOpening` is how a stream comes about,
  `StreamRuns` proves conservation and stop-and-wait flow control over all runs of calls, `StreamLoops`
  covers read_exact and write_all, `StreamEnds` says what stays deliverable, how a stream ends and what its
  ending leaves behind, `StreamPacing` exactly when flow control holds, `StreamWrites` exactly when writing
  works, `StreamOutcomes` what each call answers, and `StreamAddresses` what goes out and to whom.
- `EndToEnd`: these layers together, from the device's transfers to the bytes a caller reads and to the
  result of a shell command, and from a local file to the bytes the device decodes.
- `ShellV2`, `ShellCommands`, `Sync`, `SyncPull`, `Sideload`: what is framed on top of a stream.
- `Logcat`, `Sparse`, `SparseFiles`, `CertChain`, `EdlSpec`, `EdlTransport`: decoders that must not
  depend on how their input is cut, and must invert an encoder.
- `ModInverse`, `AndroidKey`, `VerifyWrite`: the arithmetic of the RSA public key structure and of the
  windows compared after a write.
- `Text`, `Ranking`, `Candidates`, `Matching`: scoring programmers against a connected device, and what the
  scores mean for the texts compared.
- `Bytes`, `Wrappers`, `Flash`: bytes and little-endian integers; optional values; errors and local files.

## Where the code does not meet a wider promise

Each of these is part of a proved contract or lemma, which names the input or the family on which the wider
promise fails, and usually the exact condition under which it holds.

- A write that learns of the closing of its stream leaves data that it has acknowledged unreadable
  (`StreamRuns.WriteCanStrand`); only a write can do this, and exactly when CLSE or a hang-up comes before
  any OKAY or timeout (`StreamEnds.CallStrands`, `StreamEnds.OnlyWritesStrand`). All other data is
  deliverable (`StreamEnds.OpenStreamsDeliver`).
- After a write timed out, its late OKAY is taken for the next write's
  (`StreamRuns.LateOkayAnswersTheWrongWrite`). Flow control holds throughout a run exactly if no write has
  a timeout, or data it cannot acknowledge, ahead of its answer (`StreamPacing.WriteSettlesExactly`,
  `StreamPacing.StopAndWaitExactly`).
- Local ids repeat after 2^32 opens, and an open registered under the id of one that still listens gets
  its messages (`Dispatch.SecondLapReuses`, `Dispatch.ReuseMisroutes`). Routing is kept by exactly those
  steps that take no registry entry from a listening open (`Dispatch.GuardIsExact`), which all runs of at
  most 2^32 opens do (`Dispatch.FewOpensAreSound`).
- A WRTE without payload makes `read` return no bytes, as at the end of a file
  (`StreamEnds.EmptyPayloadLooksLikeTheEnd`), and so does a bulk-in transfer without data
  (`EdlSpec.EmptyTransferLooksLikeTheEnd`).
- A timeout anywhere inside a message loses what was read of it (`Framing.TimeoutInsideMessageLoses`). In
  the handshake every transfer has a deadline; the dispatcher's reader waits for a transfer without one and
  looks at the clock only before the next, so that there a pause just before a message's last transfer is
  no timeout.
- An OPEN whose send fails leaves its registry entry behind unless the reader clears the registry
  (`Dispatch.FailedOpensStayRegistered`).
- A bad logcat header drops the rest of its chunk and parsing starts over with the next one
  (`Logcat.BadHeadersShowChunking`), and an entry without payload makes `feed` panic, because the tag is
  sliced from index 1 (`Logcat.EmptyPayloadPanics`).
- A FILL chunk whose block size is not a multiple of four comes out short (`Sparse.WrittenIsMeaning`).
- A broken length behind complete certificates discards them all (`CertChain.WalkIsExact`). The decoder's
  comment speaks of DER, but it also takes lengths that are not in the shortest form.
- The post-write check never passes for a partition of more than 1 MiB and at most 2 MiB whose image
  fills it (`VerifyWrite.PerfectWrite`). An image shorter than its partition passes only if it has 1 MiB,
  or more than 2 MiB and the end of the partition happens to equal the end of the image, because the two
  ends are compared although they lie at different places (`VerifyWrite.ShortImage`,
  `VerifyWrite.PassesExactly`). A start sector beyond 32 bits is cut, so that a window is read elsewhere
  (`VerifyWrite.SectorsWrap`).
- When the final rename of a pull fails, the temporary file stays (`SyncPull.SyncPull`).
- The word conversion is documented to pad with zeros; it does so only on words that are zero already
  (`AndroidKey.BytesToLeWords`).
- The documentation of the scoring lists three rules; the code has four, the match of a parsed identity
  coming second. A level from an earlier scoring survives when no rule applies
  (`Candidates.StaleLevelStays`).
- The length of a SYNC path is cut to 32 bits (`Sync.DecodeInvertsPush`), and a negotiated payload limit of
  zero makes every write_all fail (`StreamLoops.NothingFits`).

## Model

| member | source | states |
|---|---|---|
| `UsbPipe.AdbChecksum` | src-tauri/src/protocols/adb_usb.rs:70-72 | The checksum loop returns the recursive wrapping sum of all bytes |
| `UsbPipe.ChecksumIsSum` | src-tauri/src/protocols/adb_usb.rs:70-72 | The wrapping 32-bit sum is the plain sum of the bytes modulo 2^32 |
| `Framing.MagicIsXor` | src-tauri/src/protocols/adb_usb.rs:81-94 | The magic is the bitwise exclusive or of the command with all ones, over 32 bits |
| `Adb.NamesOfCommands` | src-tauri/src/protocols/adb_usb.rs:28-33 | OPEN, WRTE, OKAY and CLSE are spelled in ASCII on the wire |
| `Framing.ParseInvertsBuild` | src-tauri/src/protocols/adb_usb.rs:81-149 | Parsing inverts building for every message, with checksum and magic accepted |
| `UsbPipe.Endpoint.ReadMessage` | src-tauri/src/protocols/adb_usb.rs:441-525 | The two gathering loops over bulk-in transfers return what the recursive reader says and leave the same transfers unread, on every mix of data, silence, faults and unplugging |
| `Framing.ReadInvertsEncode` | src-tauri/src/protocols/adb_usb.rs:441-525 | A message of at most 1 MiB comes back whole from every cutting of its bytes into transfers that fit the sizes asked for, and no transfer behind it is used |
| `Framing.HeaderThenPieces` | src-tauri/src/protocols/adb_usb.rs:441-525 | A message of at most 1 MiB comes back whole if its 24 header bytes travel alone and its payload in any pieces of up to 16384 bytes |
| `Framing.ShortMessageAtOnce` | src-tauri/src/protocols/adb_usb.rs:453-512 | A message of at most 64 bytes comes back whole if all of it travels in one transfer |
| `Framing.OversizeIsAFault` | src-tauri/src/protocols/adb_usb.rs:453-512 | A first transfer of more than 64 bytes is a fault, and so is one behind the header of more than 16384 bytes or more than are missing |
| `Framing.HeadersAreJudged` | src-tauri/src/protocols/adb_usb.rs:465-488 | A header whose last word is not the exclusive or of its first with all ones is refused as bad magic, and any other that announces more than 1048576 bytes as too large |
| `Framing.ChecksumsAreJudged` | src-tauri/src/protocols/adb_usb.rs:489-525 | Any other header is followed by its payload, and the message is accepted if and only if the checksum is zero or right |
| `Framing.BytesAreJudged` | src-tauri/src/protocols/adb_usb.rs:103-149 | The parser of whole messages refuses fewer than 24 bytes, a wrong magic and a wrong checksum other than zero, and takes as much of the announced payload as there is |
| `Framing.LogIsFaithful` | src-tauri/src/protocols/adb_usb.rs:630-691 | Every sequence of messages, each cut in its own way and with any pauses between them, is decoded by the reader in order and completely |
| `Framing.ReaderGoesOn` | src-tauri/src/protocols/adb_usb.rs:646-681 | Silence is passed over by the dispatcher's reader, a vanished device or a failing transfer ends its log |
| `Framing.ReaderJudgesHeaders` | src-tauri/src/protocols/adb_usb.rs:646-681 | A header without its magic is passed over too, one that announces too much ends the log |
| `Framing.ReaderJudgesPayloads` | src-tauri/src/protocols/adb_usb.rs:646-681 | A payload with a wrong checksum other than zero ends the log |
| `Framing.TimeoutInsideMessageLoses` | src-tauri/src/protocols/adb_usb.rs:393-525 | For every cutting of a message: a timeout or failing transfer before its last byte, in header or payload, loses what was read and the next read starts in the middle of it; behind the last byte it does no harm |
| `Dispatch.LocalIdsDistinct` | src-tauri/src/protocols/adb_usb.rs:1104 | Two of the first 2^32 opens have the same local id only if they are the same open |
| `Dispatch.GuardIsExact` | src-tauri/src/protocols/adb_usb.rs:1104-1236 | A step keeps the routing invariant if and only if it does not take a registry entry from another open that still listens; registering and unregistering are the steps that could |
| `Dispatch.FewOpensAreSound` | src-tauri/src/protocols/adb_usb.rs:1104 | Every possible run with at most 2^32 opens reuses no listening id, because the counter has not come round |
| `Dispatch.ReuseMisroutes` | src-tauri/src/protocols/adb_usb.rs:1104-1119 | Registering an open under the id of one that still listens sends the device's messages for that id to the new channel and never again to the other |
| `Dispatch.SecondLapReuses` | src-tauri/src/protocols/adb_usb.rs:1104-1119 | It can happen: a possible run with 2^32 + 1 opens, the first still listening, whose last is about to be registered under the same id |
| `Dispatch.StepKeepsCache` | src-tauri/src/protocols/adb_usb.rs:732-749 | Every step of every thread keeps the cache invariant: a dispatcher not told to stop is cached under its serial or in the hands of the lock holder |
| `Dispatch.LiveDispatchersAreCached` | src-tauri/src/protocols/adb_usb.rs:871-1026 | In every run there is at most one live dispatcher per serial, and whenever the cache lock is free it is the cached one |
| `Dispatch.ReuseIsAlive` | src-tauri/src/protocols/adb_usb.rs:879-894 | In every run the holder of the lock reuses a dispatcher if and only if one for its serial has not been told to stop, and else connects; the one reused is for that serial and its reader runs |
| `Dispatch.FlaggedReaderStops` | src-tauri/src/protocols/adb_usb.rs:640-694 | In every run from a raised flag on, the reader decodes at most the message it was waiting for, takes at most three steps, and can always take one until it has stopped |
| `Dispatch.NobodyIsStuck` | src-tauri/src/protocols/adb_usb.rs:732-1026 | In every run the cache lock can be taken if it is free, and else its holder can take a step, each of which brings it closer to letting go |
| `Dispatch.ReadersGoOn` | src-tauri/src/protocols/adb_usb.rs:640-646 | A reader that is not flagged goes on to read, and then takes any message, silence or failure |
| `Dispatch.OpensGoOn` | src-tauri/src/protocols/adb_usb.rs:1103-1236 | In every run an open that is not dropped can take its next step, and one that was sent or accepted can be given up |
| `Dispatch.OpensGoThroughPhases` | src-tauri/src/protocols/adb_usb.rs:1103-1236 | In every run the phase of an open is told by which of its steps have been taken, and none is taken before those it needs |
| `Dispatch.StepKeepsRouting` | src-tauri/src/protocols/adb_usb.rs:630-707 | Every step that takes no entry from a listening open keeps the routing invariant between registry, logs and channels, however many opens there were |
| `Dispatch.ChannelsHoldTheirMessages` | src-tauri/src/protocols/adb_usb.rs:630-707 | In every run in which no listening id is reused a channel has received exactly the messages of its own connection that name its id, in wire order, from registration until it was cut off |
| `Dispatch.RepliesReachTheirOpener` | src-tauri/src/protocols/adb_usb.rs:1133-1148 | In such a run, while the opener or its stream listens and the reader runs, its channel holds every message naming it since before the OPEN was sent, and the next one goes to it and to no other |
| `Dispatch.FailedOpensStayRegistered` | src-tauri/src/protocols/adb_usb.rs:1138-1148 | In such a run an OPEN whose send fails leaves its registry entry if and only if the reader has not cleared the registry since the registration; messages to its id are then discarded |
| `EndToEnd.BytesSurviveAllLayers` | src-tauri/src/protocols/adb_usb.rs:630-1426 | From transfers to bytes: under every cutting, pause and call sequence and every thread interleaving that reuses no listening id, what a stream hands out is a prefix of the payloads the device sent to its id |
| `EndToEnd.OpeningCarries` | src-tauri/src/protocols/adb_usb.rs:1150-1200 | An open is answered by the first OKAY the device sent to it with no CLSE before it; the stream then names the device's end by that message's first argument, and its channel holds exactly what comes behind |
| `EndToEnd.AllBytesArrive` | src-tauri/src/protocols/adb_usb.rs:630-1426 | Whatever timeouts and empty payloads come between, further calls complete what the device sent before it closed, if and only if the stream is not closed with data unread |
| `EndToEnd.ShellOverTheWire` | src-tauri/src/protocols/adb/shell.rs:233-274 | A valid shell session sent to an open, cut into any non-empty payloads and these into any transfers, in any run of the dispatcher, has the command return exactly its outputs and first exit byte, or fail because they are too large |
| `EndToEnd.InputOverTheWire` | src-tauri/src/protocols/adb/shell.rs:370-411 | A reader at the device's end, whatever the cutting and the messages of other streams, gets the start of the input packets, and once all writes worked decodes exactly the file's packets and CloseStdin |
| `EndToEnd.PushOverTheWire` | src-tauri/src/protocols/adb/sync.rs:64-121 | A reader at the device's end gets the start of the push, and once the file was read to its end and all writes worked decodes path, file and time if and only if 32 bits hold the path's length |
| `UsbStreams.UsbStream.constructor` | src-tauri/src/protocols/adb_usb.rs:1177-1191 | A fresh stream has no unread data and is open, between the two ids it was given |
| `StreamOpening.FirstAnswerDecides` | src-tauri/src/protocols/adb_usb.rs:1150-1200 | The first OKAY, CLSE, timeout or vanished dispatcher decides on an OPEN, and other messages before it are passed over |
| `StreamOpening.AdbUsbOpen` | src-tauri/src/protocols/adb_usb.rs:1103-1200 | The loop sends OPEN with its own id, zero and the NUL-terminated service, and yields a stream exactly if that went out and an OKAY decides: fresh, between its own id and the one announced, with what came behind in its channel |
| `StreamOutcomes.ReadTells` | src-tauri/src/protocols/adb_usb.rs:1296-1367 | A read answers unread data first; then the first WRTE, CLSE, timeout or hang-up decides on its bytes, the end of the stream, or the error of that kind |
| `StreamOutcomes.WriteTells` | src-tauri/src/protocols/adb_usb.rs:1369-1426 | A write answers BrokenPipe on a closed stream, then the refusal of its WRTE, then its length if an OKAY comes first, and else the error of what came instead |
| `StreamOutcomes.LoopsTell` | src-tauri/src/protocols/adb_usb.rs:1296-1426 | write_all fails with the first failing write's error, with WriteZero if the limit is zero, and goes on behind what was written else; read_exact fails with the read's error, or UnexpectedEof if that read nothing |
| `StreamAddresses.RunNamesBothEnds` | src-tauri/src/protocols/adb_usb.rs:1227-1426 | Over every run of calls all that is sent is data within the limit and acknowledgements without any, from the own id to the device's; dropping an open stream adds one CLSE between the same ends, a closed one nothing |
| `UsbStreams.UsbStream.Read` | src-tauri/src/protocols/adb_usb.rs:1296-1367 | The call in place changes buffer, cursor, flag and channel exactly as the specification of `read`, and copies exactly its bytes to the caller |
| `UsbStreams.UsbStream.Write` | src-tauri/src/protocols/adb_usb.rs:1369-1426 | The call in place equals the specification of `write`: one WRTE of at most max_payload bytes, its OKAY awaited, data arriving meanwhile acknowledged and kept |
| `UsbStreams.UsbStream.ReadExact` | src-tauri/src/protocols/adb_usb.rs:1296-1367 | The loop of std's read_exact over `read` equals its recursive specification |
| `UsbStreams.UsbStream.WriteAll` | src-tauri/src/protocols/adb_usb.rs:1369-1426 | The loop of std's write_all over `write` equals its recursive specification |
| `UsbStreams.UsbStream.Drop` | src-tauri/src/protocols/adb_usb.rs:1227-1236 | Dropping an open stream sends one CLSE and ignores the outcome |
| `StreamRuns.DuplexConservation` | src-tauri/src/protocols/adb_usb.rs:1296-1426 | Over every interleaving of reads, writes and arrivals: acknowledged bytes are those handed out followed by those unread, each WRTE got one OKAY unless the interface refused it, and if none was refused nothing routed is missing, repeated or reordered |
| `StreamEnds.CallStrands` | src-tauri/src/protocols/adb_usb.rs:1296-1426 | One call leaves data unreadable if and only if it is a write, the closing comes before any OKAY or timeout, what comes before it can be acknowledged, and some data is unread or among it |
| `StreamEnds.OnlyWritesStrand` | src-tauri/src/protocols/adb_usb.rs:1296-1426 | Over whole runs a stream is closed with acknowledged data unread if and only if some call was such a write; a closed stream only ever reads as ended |
| `StreamRuns.WriteCanStrand` | src-tauri/src/protocols/adb_usb.rs:1369-1426 | It happens: a reply and a CLSE that arrive while a write waits leave the acknowledged reply unreadable |
| `StreamRuns.StopAndWait` | src-tauri/src/protocols/adb_usb.rs:1375-1425 | Against a device that answers each WRTE once, and while no write gave up, there is never more than one unanswered WRTE, none between calls, and no read takes an OKAY |
| `StreamPacing.CallAbandons` | src-tauri/src/protocols/adb_usb.rs:1375-1425 | A call abandons an answer exactly if it is a write that gets its WRTE out and meets a timeout, or data it cannot acknowledge, before any OKAY, CLSE or hang-up |
| `StreamPacing.WriteSettlesExactly` | src-tauri/src/protocols/adb_usb.rs:1375-1425 | After any run against a device that answers each WRTE once, a write leaves nothing unanswered on a stream that stays open if and only if nothing makes it give up before its answer, as the scripts ahead of it show |
| `StreamPacing.StopAndWaitExactly` | src-tauri/src/protocols/adb_usb.rs:1375-1425 | Over whole runs against such a device, nothing is ever left unanswered on the open stream if and only if no call is a write with a timeout, or an acknowledgement it cannot send, ahead of its answer |
| `StreamRuns.LateOkayAnswersTheWrongWrite` | src-tauri/src/protocols/adb_usb.rs:1375-1425 | After a timed-out write the late OKAY is taken for the next WRTE's |
| `StreamLoops.ReadExactStock` | src-tauri/src/protocols/adb_usb.rs:1296-1367 | read_exact returns the next n bytes of the concatenated payloads if there are that many and fails otherwise, however they were cut |
| `StreamEnds.EmptyPayloadLooksLikeTheEnd` | src-tauri/src/protocols/adb_usb.rs:1296-1367 | A read on an open stream returns no bytes and leaves it open if and only if nothing is unread and a WRTE without payload comes next |
| `StreamLoops.ReadExactHands` | src-tauri/src/protocols/adb_usb.rs:1296-1367 | read_exact hands out exactly what it returns and sends no WRTE |
| `StreamLoops.PiecesCut` | src-tauri/src/protocols/adb_usb.rs:1374-1378 | The pieces of a buffer concatenate to it, are non-empty and at most max_payload long, and all but the last are full |
| `StreamLoops.WriteAllSends` | src-tauri/src/protocols/adb_usb.rs:1369-1426 | With a positive limit write_all sends exactly those pieces, or the first few of them when it fails |
| `StreamLoops.NothingFits` | src-tauri/src/protocols/adb_usb.rs:1374-1378 | With a negotiated max_payload of zero every non-empty write_all fails, after one empty WRTE at most |
| `StreamWrites.WriteAllAnswered` | src-tauri/src/protocols/adb_usb.rs:1369-1426 | With acknowledgements going out, write_all works if and only if the OKAYs ahead of any timeout, CLSE or hang-up are at least as many as the buffer's pieces, and the limit is not zero for a non-empty buffer; it uses up that many |
| `StreamWrites.WriteEachAnswered` | src-tauri/src/protocols/adb_usb.rs:1369-1426 | A series of write_alls works if and only if the OKAYs ahead suffice for the pieces of all its buffers and all fit the limit |
| `StreamWrites.WriteEachSends` | src-tauri/src/protocols/adb_usb.rs:1369-1426 | The WRTEs of a series carry the start of the concatenated buffers within the limit, and all of them if it works |
| `StreamLoops.ReadExactIsRun` | src-tauri/src/protocols/adb_usb.rs:1296-1367 | read_exact is a run of reads, so every theorem on runs covers it |
| `StreamLoops.WriteAllIsRun` | src-tauri/src/protocols/adb_usb.rs:1369-1426 | write_all is a run of writes |
| `StreamEnds.RunLeft` | src-tauri/src/protocols/adb_usb.rs:1296-1426 | Every run of calls keeps the bytes handed out followed by those still deliverable, past timeouts and empty payloads |
| `StreamEnds.OpenStreamsDeliver` | src-tauri/src/protocols/adb_usb.rs:1296-1426 | After any run on a fresh stream whose acknowledgements go out, the bytes handed out are a prefix of the payloads routed before the closing, and further calls complete them if and only if the stream is not closed with data unread |
| `ShellV2.ParseInvertsBuild` | src-tauri/src/protocols/adb/shell.rs:65-101 | Parsing a packet inverts building it, whatever follows |
| `ShellV2.ParsedIsBuilt` | src-tauri/src/protocols/adb/shell.rs:65-101 | Every accepted packet is the encoding of what was parsed |
| `ShellV2.IdsInOrder` | src-tauri/src/protocols/adb/shell.rs:29-54 | The six packet kinds are numbered from zero in the protocol's order, and no other number is known |
| `ShellV2.SplitInvertsEncode` | src-tauri/src/protocols/adb/shell.rs:82-101 | Demultiplexing up to the first Exit inverts framing for every valid session |
| `ShellV2.EncodeInvertsSplit` | src-tauri/src/protocols/adb/shell.rs:82-101 | A finished session accounts for every byte: it is the only packet list these bytes encode |
| `ShellV2.DecodeInvertsEncode` | src-tauri/src/protocols/adb/shell.rs:65-71 | A string of packets decodes to exactly those packets |
| `ShellV2.ReadPacketParses` | src-tauri/src/protocols/adb/shell.rs:82-101 | Reading a packet from a stream is parsing the concatenated payloads, however they were cut, with the same errors |
| `ShellV2.ReadPacketHands` | src-tauri/src/protocols/adb/shell.rs:82-101 | And it takes exactly the packet's bytes off the stream |
| `ShellV2.ReadPacketFails` | src-tauri/src/protocols/adb/shell.rs:82-101 | A failed packet read is a lost device if and only if the stream timed out, was reset or ended too early |
| `ShellCommands.ReadPacket` | src-tauri/src/protocols/adb/shell.rs:82-101 | The packet reader on the stream object equals its specification |
| `ShellCommands.SessionReads` | src-tauri/src/protocols/adb/shell.rs:233-353 | With acknowledgements going out, a session read packet by packet is what the concatenated payloads mean, however they were cut |
| `ShellCommands.SessionHands` | src-tauri/src/protocols/adb/shell.rs:233-353 | A session takes exactly its packets and the Exit off the stream and sends no WRTE |
| `ShellCommands.AdbShellV2` | src-tauri/src/protocols/adb/shell.rs:233-274 | On every script the result is that of the session: its Stdout bytes, Stderr bytes and first Exit byte, its error, or the limit error exactly if there are more than 100 MiB of output; and if the acknowledgements go out it is the meaning of the concatenated payloads |
| `ShellCommands.CollectingInvertsFraming` | src-tauri/src/protocols/adb/shell.rs:233-274 | For every valid session the meaning is its outputs in order, failing exactly when they exceed 100 MiB |
| `ShellCommands.AdbShellStream` | src-tauri/src/protocols/adb/shell.rs:292-353 | Exactly if the session has more Stdout bytes than the writer has room for, the writer is filled with their start and fails; else it has exactly the Stdout bytes, the counter is their number, and the result is the exit code or error of the session |
| `ShellCommands.AwaitExit` | src-tauri/src/protocols/adb/shell.rs:419-440 | Reading on until Exit yields the exit code of the session, 255 for an empty Exit |
| `ShellCommands.SendFile` | src-tauri/src/protocols/adb/shell.rs:374-411 | The loop ends in the state of writing one Stdin packet per piece the file comes in, and succeeds exactly when these writes work and the file can be read to its end; which of the two failed decides the error |
| `ShellCommands.AdbShellStreamStdin` | src-tauri/src/protocols/adb/shell.rs:370-440 | All input is sent exactly when the file can be read to its end and all writes work, that is, when the device answers as often as the packets take; it then decodes as Stdin packets of exactly the file and one CloseStdin, is the start of that otherwise, and the result is the exit code of the session that follows |
| `Sync.ReadInvertsFrames` | src-tauri/src/protocols/adb/sync.rs:182-214 | Reading DATA frames up to DONE inverts framing |
| `Sync.DecodeInvertsPush` | src-tauri/src/protocols/adb/sync.rs:87-121 | SEND, DATA and DONE decode back to path, file and time if and only if 32 bits hold the length of the path |
| `Sync.ApprovalIsSpelled` | src-tauri/src/protocols/adb/sync.rs:126-139 | With acknowledgements going out, a push is approved if and only if the next eight bytes are there and begin with OKAY |
| `Sync.WriteRequest` | src-tauri/src/protocols/adb/sync.rs:32-41 | A request goes out whole exactly when its three writes work, that is, when the device answers as often as they take; else its start went out |
| `Sync.NamesOfRequests` | src-tauri/src/protocols/adb/sync.rs:17-24 | Requests begin with STAT, SEND and RECV in ASCII |
| `Sync.NamesOfFrames` | src-tauri/src/protocols/adb/sync.rs:17-24 | Frames and answers begin with DATA, DONE, OKAY and FAIL in ASCII |
| `Sync.SendData` | src-tauri/src/protocols/adb/sync.rs:96-117 | The DATA loop ends in the state of writing one frame per piece of at most 65536 bytes the file comes in, and succeeds exactly when these writes work and the file can be read to its end |
| `Sync.AwaitVerdict` | src-tauri/src/protocols/adb/sync.rs:126-139 | A push succeeds exactly when the next eight bytes are an OKAY response |
| `Sync.SyncPush` | src-tauri/src/protocols/adb/sync.rs:64-140 | A push goes out whole exactly when the file can be read to its end and all writes work, that is, when the device answers as often as they take, and else its start, with the error of what failed; it then decodes to path with mode, file and time if and only if 32 bits hold the path's length, and succeeds exactly when the device answers OKAY; an empty file is refused before anything is sent |
| `SyncPull.TempDiffers` | src-tauri/src/protocols/adb/sync.rs:176 | The temporary name differs from the target exactly for names that name a file |
| `SyncPull.TempReplacesExtension` | src-tauri/src/protocols/adb/sync.rs:176 | It has .img.tmp in place of what follows the last dot, or behind a name without one but at its beginning |
| `SyncPull.ReceivingReads` | src-tauri/src/protocols/adb/sync.rs:182-217 | With acknowledgements going out, what the stream's frames amount to is what the concatenated payloads mean, however they were cut |
| `SyncPull.FailureIsReadOut` | src-tauri/src/protocols/adb/sync.rs:54-61 | A FAIL frame ends the transfer, and its message is read out, up to 4096 bytes |
| `SyncPull.AskingWorks` | src-tauri/src/protocols/adb/sync.rs:148-173 | The device can be asked for a file exactly when both requests are answered as often as they take and a sixteen-byte reply with a non-zero mode is ahead |
| `SyncPull.AskingSends` | src-tauri/src/protocols/adb/sync.rs:148-173 | What goes out is STAT with length and path and, once sixteen bytes answered it, RECV with the same, or the start of these |
| `SyncPull.ReceiveFile` | src-tauri/src/protocols/adb/sync.rs:178-217 | Succeeds exactly when the temporary file can be created, the transfer ends with DONE and its payloads find room, and the file then holds their concatenation; the error is a local one exactly if file or room was missing, and no other file changes |
| `SyncPull.Fetch` | src-tauri/src/protocols/adb/sync.rs:175-237 | What becomes of the local files is determined by the transfer, the room and the faults of the file operations, on every path through creation, writing, renaming and cleaning up |
| `SyncPull.SyncPull` | src-tauri/src/protocols/adb/sync.rs:141-237 | Exactly if the device can be asked and has the file, its transfer is fetched, and the target then holds the payloads of all DATA frames up to DONE if the local operations work; else nothing is touched |
| `Sideload.ParseInvertsDecimal` | src-tauri/src/protocols/adb/sideload.rs:24-41 | The request parser inverts eight-digit zero-padded decimal for every block below 10^8 |
| `Sideload.NumbersAreParsed` | src-tauri/src/protocols/adb/sideload.rs:24-41 | Of all eight-byte strings but two exactly those of digits, or of zeros, a plus sign and digits, are block numbers, and the former are their decimal value |
| `Sideload.PlusIsParsed` | src-tauri/src/protocols/adb/sideload.rs:24-41 | A plus sign behind leading zeros changes nothing about the number behind it |
| `Sideload.RequestsAreJudged` | src-tauri/src/protocols/adb/sideload.rs:24-63 | Success is spelled DONEDONE and rejection FAILFAIL and neither in any other way; digits ask for exactly their 65536 bytes of the file, and are refused exactly beyond its end |
| `Sideload.RefusedBlocks` | src-tauri/src/protocols/adb/sideload.rs:44-49 | A block is refused exactly when it is at or beyond the number of blocks |
| `Sideload.BlocksTile` | src-tauri/src/protocols/adb/sideload.rs:44-63 | The blocks are non-empty, all but the last are full, and they concatenate to the file |
| `Sideload.ServeRequest` | src-tauri/src/protocols/adb/sideload.rs:77-133 | One round of the loop on the stream object equals its specification: the request, the outcome it means, and its slice sent or broken off |
| `Sideload.ServiceAccounts` | src-tauri/src/protocols/adb/sideload.rs:53-135 | In every run the bytes sent are exactly the slices asked for, all whole but perhaps the last on a broken stream, and the bytes read are those requests and at most one more |
| `Sideload.ServiceBreaks` | src-tauri/src/protocols/adb/sideload.rs:53-135 | With acknowledgements going out a run breaks off if and only if its last round has less than a request ahead of it, or fewer answers than the block takes |
| `Sideload.CooperativeDeviceIsServed` | src-tauri/src/protocols/adb/sideload.rs:53-135 | A device that answers each WRTE and asks for blocks of the file in any order, any number of times, gets all of them, and the run completes when it says DONEDONE |
| `Sideload.AdbSideload` | src-tauri/src/protocols/adb/sideload.rs:53-135 | The loop on the stream object is exactly the specified run, which succeeds if and only if the last request is the eight bytes DONEDONE; it breaks off only for the causes above, and the accounts above hold of it; an empty file is refused before anything is read |
| `Logcat.LeftoverIsShort` | src-tauri/src/protocols/adb/logcat.rs:158-245 | What waits for more data is at most 65598 bytes, so the overflow clear cannot fire on chunks of at most 1 MiB less that |
| `Logcat.ParseIncrementally` | src-tauri/src/protocols/adb/logcat.rs:158-245 | Parsing a prefix and later its leftover with the rest is parsing the whole |
| `Logcat.ChunkIndependence` | src-tauri/src/protocols/adb/logcat.rs:158-245 | For every well-formed stream and every way of cutting it, the calls of `feed` together return what one pass finds |
| `Logcat.FeedUpToStop` | src-tauri/src/protocols/adb/logcat.rs:158-245 | Up to and including the chunk in which one pass would stop, the calls return what came before the stop, or panic on an entry without payload |
| `Logcat.BadHeadersShowChunking` | src-tauri/src/protocols/adb/logcat.rs:179-187 | Behind a bad header the rest of its chunk is dropped and parsing starts over with the next chunk, so the result is that of one pass if and only if parsing the later chunks finds no entry |
| `Logcat.EmptyPayloadPanics` | src-tauri/src/protocols/adb/logcat.rs:192-210 | Once one pass meets an entry without payload, the call that completes it panics, whatever follows |
| `Logcat.OverflowStartsOver` | src-tauri/src/protocols/adb/logcat.rs:158-175 | A buffer of more than 1048576 bytes is emptied, the call returns nothing, and the calls behind it return what they would to a new parser; up to that size nothing is dropped |
| `Logcat.FourBytesTell` | src-tauri/src/protocols/adb/logcat.rs:174-187 | Fewer than four bytes wait for more; from four on a header size outside 20 to 64 is a bad header at once, and any inside is none |
| `Logcat.PrioritiesInOrder` | src-tauri/src/protocols/adb/logcat.rs:30-40 | Priorities are numbered from 2 in the order verbose to fatal, and any other number is taken for verbose |
| `Logcat.BarePayload` | src-tauri/src/protocols/adb/logcat.rs:208-231 | A payload without a NUL is all tag, and its message is empty |
| `Logcat.PayloadsAreCutAtNuls` | src-tauri/src/protocols/adb/logcat.rs:208-231 | The message reaches to the second NUL or, if there is none, to the end of the payload, and what follows that NUL is ignored |
| `Logcat.ParseInvertsEncode` | src-tauri/src/protocols/adb/logcat.rs:192-240 | Parsing inverts the v1 and v3 encodings for tags and messages without NUL |
| `Logcat.FeedInvertsEncode` | src-tauri/src/protocols/adb/logcat.rs:158-245 | Encoded entries, cut anywhere, come out of `feed` as they went in |
| `Logcat.LogcatParser.Feed` | src-tauri/src/protocols/adb/logcat.rs:158-245 | The loop over the object's buffer equals one call of the specification, including overflow, bad headers and the failure on an empty payload |
| `Sparse.WrittenIsMeaning` | src-tauri/src/protocols/sparse.rs:68-103 | A chunk is written as it is meant, and at full length, exactly when it is not a non-empty fill of blocks whose size is no multiple of four |
| `Sparse.ExpandInvertsPieces` | src-tauri/src/protocols/sparse.rs:60-111 | Expanding encoded chunks writes each of them in order and stops exactly behind the last |
| `Sparse.ExpandInvertsEncode` | src-tauri/src/protocols/sparse.rs:44-112 | For every chunk list and block size the image is accepted and read exactly to its end; the output is the concatenated meanings, of block size times the block count, if and only if all fills are aligned |
| `Sparse.TruncationIsNoticed` | src-tauri/src/protocols/sparse.rs:44-112 | Any accepted image that is cut short before the end of its last chunk is refused as truncated, and what was written is the start of what the whole one writes |
| `Sparse.StrangersAreRefused` | src-tauri/src/protocols/sparse.rs:99-106 | Wherever the chunks before it leave a chunk of any other type to be read, the expansion ends there as unknown, with what these chunks wrote |
| `Sparse.ForeignFilesAreRefused` | src-tauri/src/protocols/sparse.rs:44-56 | A file of at least 28 bytes is refused as not sparse if and only if it does not begin with the four magic bytes |
| `Sparse.TypesOnDisk` | src-tauri/src/protocols/sparse.rs:11-17 | The magic and the four chunk types as bytes of a file |
| `SparseFiles.Copy` | src-tauri/src/protocols/sparse.rs:69-78 | The RAW copy loop through a bounded buffer copies exactly the chunk |
| `SparseFiles.WriteTimes` | src-tauri/src/protocols/sparse.rs:79-97 | The FILL and DONT_CARE loops write the block the given number of times |
| `SparseFiles.DecompressSparse` | src-tauri/src/protocols/sparse.rs:44-112 | The nested loops succeed exactly when the image is complete and fits, have then written exactly its expansion and read exactly to its end, and otherwise fail with the matching error |
| `SparseFiles.IsSparse` | src-tauri/src/protocols/sparse.rs:24-39 | The probe says whether the file starts with the magic, false for a shorter one, and leaves the position where it was |
| `SparseFiles.ProbeAgrees` | src-tauri/src/protocols/sparse.rs:24-56 | Probe and expander agree on what a sparse image is |
| `CertChain.DerReadLength` | src-tauri/src/protocols/edl_mbn.rs:844-871 | The shifting loop equals the big-endian value, and its checked operations never fail |
| `CertChain.LengthInvertsForms` | src-tauri/src/protocols/edl_mbn.rs:844-871 | The length decoder inverts the short form and the long forms of up to four bytes |
| `CertChain.FormsCoverLengths` | src-tauri/src/protocols/edl_mbn.rs:844-871 | Every length it accepts is written in one of those forms |
| `CertChain.WalkIsExact` | src-tauri/src/protocols/edl_mbn.rs:804-822 | Behind any list of elements the walk finds exactly that list if the data ends or goes on with another tag or an element too long, and nothing at all if a broken length follows |
| `CertChain.WalkCutsAll` | src-tauri/src/protocols/edl_mbn.rs:804-822 | All data is a list of elements and a rest at which the walk stops or breaks, and the result is that list or nothing accordingly |
| `CertChain.ExtractPkhashFromCertChain` | src-tauri/src/protocols/edl_mbn.rs:804-840 | The loop over `pos` and `certs` equals the hash of the walk's last element |
| `CertChain.RootIsHashed` | src-tauri/src/protocols/edl_mbn.rs:788-840 | The last element is hashed exactly when it has 100 to 10240 bytes, with SHA-256 if the nine bytes of the RSA-with-SHA-256 identifier occur in it and with SHA-384 else |
| `CertChain.FindAndExtractPkhash` | src-tauri/src/protocols/edl_mbn.rs:788-797 | The result is that of the first position where a chain yields a hash: testing the tag first and stopping four bytes early misses nothing |
| `EdlTransport.EdlUsbTransport.constructor` | src-tauri/src/protocols/edl_usb.rs:128-136 | A new transport has nothing buffered |
| `EdlTransport.EdlUsbTransport.Read` | src-tauri/src/protocols/edl_usb.rs:138-164 | The call over the fixed array equals an unbounded queue: what a short read leaves over always fits |
| `EdlTransport.EdlUsbTransport.FillBuf` | src-tauri/src/protocols/edl_usb.rs:182-197 | The call shows exactly what is pending, after at most one transfer |
| `EdlTransport.EdlUsbTransport.Consume` | src-tauri/src/protocols/edl_usb.rs:199-201 | The call takes what was shown, clamped to what is there |
| `EdlSpec.NothingIsLost` | src-tauri/src/protocols/edl_usb.rs:138-202 | Over every mix of calls, bytes taken and then bytes buffered are the bytes buffered at first and then all bytes received |
| `EdlSpec.MixMakesNoDifference` | src-tauri/src/protocols/edl_usb.rs:138-202 | Every mix of calls that work takes a prefix of one and the same stream, with transfers of any size, and leaves exactly its rest |
| `EdlSpec.MixesAgree` | src-tauri/src/protocols/edl_usb.rs:138-202 | Of any two mixes of calls that work the one that takes less takes a prefix of what the other takes |
| `EdlSpec.CallsAreExact` | src-tauri/src/protocols/edl_usb.rs:138-202 | Pending bytes come first and cost no transfer; else a read works exactly with one transfer of up to 64 bytes or its own size, and takes all of it that fits, and a look with one of up to 4096 |
| `EdlSpec.EmptyTransferLooksLikeTheEnd` | src-tauri/src/protocols/edl_usb.rs:138-164 | A read works and takes nothing, as at the end of a file, if and only if nothing is pending and an empty transfer comes next |
| `ModInverse.BezoutStep` | src-tauri/src/protocols/adb_usb.rs:327-335 | One step of the extended Euclid loop keeps both cross products, both linear combinations and the alternation of signs |
| `ModInverse.CoefficientBound` | src-tauri/src/protocols/adb_usb.rs:327-335 | No coefficient and no product of quotient and coefficient exceeds the modulus, which is why 128 bits suffice |
| `ModInverse.ModInverseU32` | src-tauri/src/protocols/adb_usb.rs:323-338 | On all inputs the loop terminates inside 128-bit words with a result in [0, m) that is the inverse if and only if the arguments are coprime |
| `ModInverse.WrapAround` | src-tauri/src/protocols/adb_usb.rs:337 | Adding the modulus to a truncating remainder gives the non-negative residue |
| `ModInverse.OddIsCoprime` | src-tauri/src/protocols/adb_usb.rs:255-259 | A number is coprime to 2^32 if and only if it is odd |
| `ModInverse.NegatedInverse` | src-tauri/src/protocols/adb_usb.rs:252-260 | n0 * n0inv is -1 modulo 2^32 if and only if n0 is odd |
| `AndroidKey.WordsKeepValue` | src-tauri/src/protocols/adb_usb.rs:308-319 | The words hold the value of the bytes, cut to their width, including a partial last word |
| `AndroidKey.BytesToLeWords` | src-tauri/src/protocols/adb_usb.rs:308-319 | The loop over the word array fills it from the bytes and leaves words wholly behind them as they were |
| `AndroidKey.EncodeKeyStruct` | src-tauri/src/protocols/adb_usb.rs:242-287 | The structure of w words per number has 8w + 12 bytes, 524 for 64 words, and decodes to w, the Montgomery constant, modulus, squared radix and exponent, each cut to its field |
| `AndroidKey.NarrowModulus` | src-tauri/src/protocols/adb_usb.rs:247-270 | A modulus that fits its field, and the squared radix modulo it, are not cut |
| `VerifyWrite.ComputeFileHashes` | src-tauri/src/protocols/edl.rs:1538-1569 | The hashes are those of the whole of a small file, and of its first and last 1 MiB otherwise |
| `VerifyWrite.VerifyWrite` | src-tauri/src/protocols/edl.rs:1249-1367 | The check fails exactly when the file is too short or a window cannot be read, and passes exactly when the digests of the windows agree |
| `VerifyWrite.PassesVerification` | src-tauri/src/protocols/edl.rs:1249-1367 | With a hash without collisions it passes exactly when the windows themselves agree |
| `VerifyWrite.TailOffset` | src-tauri/src/protocols/edl.rs:1312 | The tail window is the last 1 MiB of the partition if and only if sectors divide 1 MiB |
| `VerifyWrite.PassesExactly` | src-tauri/src/protocols/edl.rs:1256-1366 | For images of every size: passes if and only if all of a partition of at most 1 MiB, or the first 1 MiB of one up to 2 MiB, is the image, or both ends of a larger one are those of an image of 1 MiB or above 2 MiB |
| `VerifyWrite.FullImage` | src-tauri/src/protocols/edl.rs:1256-1366 | For an image that fills the partition it passes if and only if all of at most 1 MiB, or the first and last 1 MiB of more than 2 MiB, agree |
| `VerifyWrite.PerfectWrite` | src-tauri/src/protocols/edl.rs:1256-1366 | A region equal to the image passes if and only if it has at most 1 MiB or more than 2 MiB |
| `VerifyWrite.ShortImage` | src-tauri/src/protocols/edl.rs:1263-1331 | A perfectly written image shorter than its partition passes if and only if it has 1 MiB, or more than 2 MiB, and the last 1 MiB of a partition above 2 MiB happens to equal the image's |
| `VerifyWrite.SectorsWrap` | src-tauri/src/protocols/edl.rs:1270-1284 | Sectors beyond 32 bits are read as if the region began 2^32 sectors earlier |
| `Candidates.NormalizeTwice` | src-tauri/src/protocols/edl_db.rs:283-304 | On sixteen lower-case digits normalizing reverses the bytes, and twice is the identity |
| `Text.LittleEndianReverses` | src-tauri/src/protocols/edl_db.rs:289-299 | Decoding hexadecimal, reading it little-endian and printing it reverses the byte pairs |
| `Candidates.Level` | src-tauri/src/protocols/edl_db.rs:341-393 | The chain of early exits computes the specified level |
| `Candidates.ScoreIsFirstRule` | src-tauri/src/protocols/edl_db.rs:341-393 | The level is the first rule that holds if and only if a rule holds or the candidate came as Unknown; at most one level is the first |
| `Matching.ScoreMeans` | src-tauri/src/protocols/edl_db.rs:311-393 | The level in terms of the texts: same path with this device, verified identity, at least eight characters of the device's identifiers in the name, same path with another device, or the level it came with |
| `Matching.IdentityMeans` | src-tauri/src/protocols/edl_db.rs:352-375 | An identity matches if and only if the hashes agree in their first sixteen characters and the hardware identifiers are absent, agree, or are byte-reversed, all without regard to case |
| `Matching.NormalizeMeans` | src-tauri/src/protocols/edl_db.rs:283-304 | Sixteen leading hexadecimal digits are reversed byte by byte, any other identifier is only put in lower case |
| `Matching.KeyMeans` | src-tauri/src/protocols/edl_db.rs:311-317 | Two devices have the same key if and only if both identifiers agree without regard to case, as long as the first has no colon |
| `Candidates.StaleLevelStays` | src-tauri/src/protocols/edl_db.rs:388-393 | A level from an earlier scoring stays on a candidate no rule covers |
| `Candidates.Paths` | src-tauri/src/protocols/edl_db.rs:318-331 | The path sets are the same whatever order the database is walked in |
| `Candidates.ScoreCandidates` | src-tauri/src/protocols/edl_db.rs:311-402 | Scoring in place and sorting leaves the one stable order of the scored candidates, for every order of the database |
| `Ranking.SortIsStable` | src-tauri/src/protocols/edl_db.rs:395-400 | The sort orders by level and lower-case name, permutes, and keeps ties in their order |
| `Ranking.StableSortIsUnique` | src-tauri/src/protocols/edl_db.rs:395-400 | Order and ties determine the result, so any stable sort gives this one |
| `Matching.OrderMeans` | src-tauri/src/protocols/edl_db.rs:395-400 | Exact matches come first, then verified binaries, matching names, unknown candidates and those of other devices, each kind by lower-case name |
| `Matching.AtMostMeans` | src-tauri/src/protocols/edl_db.rs:395-400 | Names are ordered as in a dictionary: a prefix first, and else by the first difference |
| `Candidates.ScoringPermutes` | src-tauri/src/protocols/edl_db.rs:311-402 | Nothing is lost or changed but the levels |
| `Candidates.ScoringTwice` | src-tauri/src/protocols/edl_db.rs:311-402 | Scoring again with the same database and device changes nothing |

## Left out

- ReadMessage: a transfer longer than what was asked for is a bus fault, as the host controller reports it; the texts of errors are left out.
- Dispatch: a message is sent to the interface in one step; the several bulk-out transfers of one message, which the interface lock keeps together, are not told apart, nor are poisoned locks.
- BytesSurviveAllLayers: speaks of runs in which no listening id is reused, as `Dispatch.ReuseMisroutes` requires, and of streams whose acknowledgements the interface took.
- ShellOverTheWire: for sessions that arrive without a timeout in between, which the command reports as an error.
- StopAndWait: covers the stream itself; the write-only shell handle, which sends without waiting on purpose, is not part of it.
- AdbSideload: the pause before a retry, the progress events and failing reads of the local file are left out.
- SyncPush: the debug assertion on the length of a request is left out; release builds do not have it.
- Create: fails for paths that name no file and where a script says so; why else a file operation fails is left out.
- OpenStreamsDeliver: for streams whose acknowledgements the interface took; what a refused one loses is not counted.
- AllBytesArrive: a channel reports a vanished sender only behind the messages still queued in it.
- MixMakesNoDifference: for mixes of calls that work; an answer longer than was asked for is a bus error and its bytes are gone.
- PassesExactly: for sector sizes that divide 1 MiB and windows that start below 2^32 sectors; `VerifyWrite.TailOffset` and `VerifyWrite.SectorsWrap` say what others change.
- PushOverTheWire: the device's end is a reader with the same framing rules; what adbd does behind it is not part of this model.
- FeedInvertsEncode: tags and messages are bytes; the replacement of malformed UTF-8 is left out.
- DecompressSparse: sizes are unbounded integers; on 64-bit words the products of the source fit.
- FindAndExtractPkhash: SHA-256 and SHA-384 are parameters, and so are their results' hexadecimal texts.
- EncodeKeyStruct: base64, user and host name, and the RSA signature are left out; the number of words is a parameter, which is 64 in the source.
- VerifyWrite: byte counts are unbounded integers; the source multiplies in 64 bits. The texts of the verdict are left out.
- ScoreCandidates: text is ASCII, so that changing case keeps lengths and prefixes cut no character; the sorting algorithm of the standard library is modelled by its result, which is unique.
- Real time: deadlines are timeouts that may come at any receive.
- USB enumeration, claiming, halts, cancellation and the CNXN and AUTH handshake: foreign I/O, present only as the outcome of connecting.
- The TCP transport to an ADB server: a socket behind the same read and write interface.
- The Sahara and Firehose protocols beyond the transport and the check above: they live in a library that is not part of this model.
- Partition tables, fastboot, file validation, chipset tables and command strings: fixed-offset reads, wrappers and lookups that would add only easy members.
- The removal of repeated Sahara identity fields: a short search loop that would add only an easy member.
