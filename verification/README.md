# A verified model of the Xray-core protocols

The repository wraps a copy of Xray-core. This project models the parts of Xray-core whose correctness is hard to see
from the code and proves what they are for. All statements hold for all inputs, all cuts of a byte stream, all
interleavings or all runs, unless a line says otherwise.

| component | modules |
|---|---|
| buffers, lists of buffers, buffered reading | `Bytes`, `Buf`, `MultiBuffer` |
| Vision padding: blocks, unpadding, padding, reshaping | `VisionPadding`, `VisionCodec`, `TlsRecord` |
| Vision writer and reader over whole runs | `VisionFilter`, `VisionWriter`, `VisionReader`, `VisionStream` |
| AEAD chunk stream | `Nonce`, `AuthStream` |
| mux: frames, chunks, receive loop, writers, sessions | `Frame`, `Chunk`, `MuxLink`, `MuxWorker`, `MuxWriter`, `MuxSession` |
| IP matchers | `IPAddress`, `IPMatcher`, `IPFilter`, `IPMulti` |
| DNS cache, serving from it, lookups at several servers | `DnsCache`, `DnsRun`, `DnsServe`, `DnsParallel` |
| replay filter, feature resolution, geodat search | `ReplayFilter`, `Features`, `Geodat` |

To check the project: `dafny verify dfyconfig.toml`.

## How to read it

Code that changes state is a class or a method with loops; its contract ties the new state to a function of the old one,
and the theorems are lemmas about that function. What is random, timed or decided elsewhere (padding draws, the clock,
the order of arrivals, which writes an output accepts, what other goroutines do between two frames, which dispatches
succeed, how a connection cuts its bytes, the ciphers, the parsing of IP literals, the set builder) is a parameter, so the
theorems hold whatever it does.

## Where a property is false

The code is kept as it is, and the exact condition is proved.

- A `VisionReader` that is handed a stream in several reads can take it for finished inside the header of the last block,
  because the test after unpadding does not look at the header bytes that are missing. `ReaderIsCorrectExactly` gives
  the condition on the cuts, `CutBehindDirectCorrupts` a whole family of failures.
- The padding length can become negative, and `Extend` panic, for some configured seeds, also with
  seed[2]+1 >= seed[0] when a sum leaves 31 bits. `SeedSafeExactly` gives the seeds for which it cannot.
- An address survives writing and reading iff it is not a domain that the reader rejects or takes for an IP
  (`AddressRoundTrip`); frame metadata survives iff its body is at most 512 bytes (`MetaRoundTrip`), which a frame with
  source and local addresses can exceed (`LongFrameIsRefused`).
- A session that is closed takes another one out of the table iff the id counter can come round while it is open, that is
  without an effective MaxConnection and unless MaxConcurrency is 1 (`CloseSession`, `CloseTakesAnother`).
- A packet that is too long for a buffer is dropped only after its padding length has been drawn. The two sides of an AEAD
  packet stream stay in step iff no such draw changes the generator (`PacketLockstepExactly`,
  `DroppedPacketBreaksLockstep`).
- During a migration a lookup can miss a current answer of one type, never return an outdated one (`LookupIsCurrent`,
  `HidingIsReachable`).
- Cleanup takes away answers that could still be served iff stale answers are served with a limit above 2 to the 31st, which
  wraps around (`CleanupRespectsServingExactly`); without a limit, cleanup is never started (`StartsExactly`).
- `GeneralMultiIPMatcher.FilterIPs` without any matcher keeps invalid addresses (`FilterIPsByAny`).
- The replay filter has no upper bound in time for how long it refuses a value (`RefusedHoweverLate`): it accepts it again iff
  two checks since have rotated the pools (`AcceptedAgainExactly`).

## Model

| member | source | states |
|---|---|---|
| `VisionPadding.UnpadInvertsPadding` | Xray-core/proxy/proxy.go:519-639 | round trip: for every non-empty list of blocks (Continue, then any last command), every raw tail behind an ending block and every cut of the bytes into buffers, the first with at least 21 bytes, unpadding returns exactly the contents followed by the tail and ends in the initial state iff the last block ends padding |
| `VisionPadding.CutRuns` | Xray-core/proxy/proxy.go:558-639 | the cut of the bytes into buffers makes no difference, from any state inside the blocks |
| `VisionPadding.BlocksRun` | Xray-core/proxy/proxy.go:546-553 | the bytes of any well-formed list of blocks take the reader from a block boundary to the state behind the last command and carry the contents; before that it is never idle |
| `VisionPadding.IdlePassesExactly` | Xray-core/proxy/proxy.go:574-581 | outside of a padded stream a buffer passes unchanged iff it does not begin with the 16 bytes of the user id, with room for a header; otherwise a stream begins behind them |
| `VisionCodec.XtlsUnpadding` | Xray-core/proxy/proxy.go:558-639 | on one buffer of at most 8192 bytes, the bulk reads, skips and writes give the state and output of the byte-wise reader, and the output buffer never overflows; outside of a padded stream a buffer that does not begin with the user id and a header comes out as it is |
| `VisionCodec.ReadBlocks` | Xray-core/proxy/proxy.go:584-637 | the loop over blocks, including the raw rest behind an ending block |
| `VisionCodec.ReadStep` | Xray-core/proxy/proxy.go:585-624 | one loop step consumes at least one byte, appends exactly its output and leaves the rest of the buffer leading to the same result |
| `VisionCodec.SettleStep` | Xray-core/proxy/proxy.go:625-636 | the end-of-block test: next header after Continue, idle after End and Direct |
| `VisionCodec.SeedSafeExactly` | Xray-core/proxy/proxy.go:519-545 | in wrapping int32 arithmetic no content and no draw gives a negative padding length iff the seed meets a stated condition on its four numbers |
| `VisionCodec.SeedUnsafeGoesNegative` | Xray-core/proxy/proxy.go:519-545 | for every other seed a content length and a draw with a negative padding length |
| `VisionCodec.UsualSeedsAreSafe` | Xray-core/proxy/proxy.go:306-322 | the default seed is safe, and every seed with seed[2]+1 >= seed[0] whose sums stay within 31 bits |
| `VisionCodec.PickPadding` | Xray-core/proxy/proxy.go:524-545 | content, padding, header and user id fit into 8192 bytes |
| `VisionCodec.PickedValue` | Xray-core/proxy/proxy.go:524-545 | the value for every safe seed, in plain arithmetic: short content under long padding is filled up to a random total from the long base upwards, otherwise the length is random, cut off by the buffer |
| `VisionCodec.XtlsPadding` | Xray-core/proxy/proxy.go:519-555 | the buffer holds user id, header, content and padding of the chosen length, with nothing truncated; a missing buffer is empty content |
| `VisionCodec.Assemble` | Xray-core/proxy/proxy.go:546-553 | the writes into the buffer spell one block: command, two length bytes each for content and padding, content, zeros |
| `VisionCodec.LastIndex` | Xray-core/proxy/proxy.go:499-502 | the last occurrence of the application-data mark |
| `VisionCodec.ReshapeMultiBuffer` | Xray-core/proxy/proxy.go:484-516 | the byte stream is kept, every piece is at most 8171 bytes, nothing changes if all pieces are short, and every long piece is replaced by its two parts |
| `VisionCodec.ReshapeOne` | Xray-core/proxy/proxy.go:494-508 | a long piece is cut in two at its last application-data mark, or at 4096 if there is none or it is too close to an end; a short one is kept |
| `TlsRecord.IsCompleteRecord` | Xray-core/proxy/proxy.go:430-481 | true iff the bytes are a concatenation of complete application-data records (section 5.2 of RFC 8446), each with non-zero length |
| `TlsRecord.ScanBytes` | Xray-core/proxy/proxy.go:436-480 | the loop decides what the byte-wise header states accept |
| `TlsRecord.ScanDecidesRecords` | Xray-core/proxy/proxy.go:430-481 | a record-by-record scan decides that grammar, both ways |
| `TlsRecord.AcceptsIsScan` | Xray-core/proxy/proxy.go:436-480 | the byte-wise header states accept exactly what the scan accepts |
| `VisionFilter.FilterKeepsInv` | Xray-core/proxy/proxy.go:642-693 | run invariant of the detection: direct copy implies TLS 1.2 or above, an accepted TLS 1.3 cipher and detection that has stopped |
| `VisionFilter.VerdictHasACause` | Xray-core/proxy/proxy.go:675-686 | direct copy is enabled only by a packet with the TLS 1.3 version mark (section 4.2.1 of RFC 8446) |
| `VisionFilter.PacketExactly` | Xray-core/proxy/proxy.go:642-693 | what one packet does, by its bytes: when detection ends, and direct copy enabled iff the version mark lies inside the server hello and the suite behind the session id is accepted |
| `VisionFilter.HelloDecides` | Xray-core/proxy/proxy.go:642-693 | a whole run: whatever comes before and after a server hello that is whole, direct copy is enabled iff that packet carries an accepted suite and the mark |
| `VisionFilter.TrafficState.Observe` | Xray-core/proxy/proxy.go:372-374 | while packets are left to look at, all packets of the call are filtered, else nothing changes; the invariant is kept, once direct copy is enabled nothing changes any more, and TLS flags never go back |
| `VisionFilter.TrafficState.XtlsFilterTls` | Xray-core/proxy/proxy.go:642-693 | the loop over packets refines the fold over which the invariant is proved |
| `VisionWriter.PadShape` | Xray-core/proxy/proxy.go:383-415 | one call: only Continue while padding stays on; when it ends exactly one End or Direct, Direct iff direct copy was switched on; needs the detection invariant |
| `VisionWriter.PadCarries` | Xray-core/proxy/proxy.go:383-415 | one call emits every buffer once, in order, with its content |
| `VisionWriter.PadIsExact` | Xray-core/proxy/proxy.go:379-415 | the exact condition under which one call ends the padding and switches to direct copy, by the bytes of the write |
| `VisionWriter.PadIsDrawn` | Xray-core/proxy/proxy.go:379-415 | the padding of every block: long for records, and for other buffers of a TLS connection until a record has ended the padding |
| `VisionWriter.VisionWriter.WriteMultiBuffer` | Xray-core/proxy/proxy.go:340-427 | every run: Continue blocks, then at most one End or Direct in the call in which padding ends, then unpadded bytes; every buffer of the reshaped input is emitted in order. By the input bytes: padding ends iff a buffer begins like application data in a write of complete records of a TLS connection, unless direct copy is detected but not enabled, or another buffer comes when TLS 1.2 is not detected and at most one packet is left; the switch is on iff padding ends while direct copy is detected and enabled, and then the write consists of complete records; every padding length is what the seed gives |
| `VisionWriter.VisionWriter.PadLoop` | Xray-core/proxy/proxy.go:383-415 | the loop with its flags refines the recursive definition that the shape is proved about |
| `VisionWriter.VisionWriter.Decide` | Xray-core/proxy/proxy.go:386-413 | the command of a buffer and the flags behind it |
| `VisionWriter.VisionWriter.Commit` | Xray-core/proxy/proxy.go:416-427 | appending one call to the wire keeps the run shape and puts the user id in front of the first block only |
| `VisionWriter.ShapeIsStream` | Xray-core/proxy/proxy.go:383-427 | any run in that shape is a well-formed list of blocks followed by raw bytes |
| `VisionWriter.VisionWriter.ReaderGetsEverything` | Xray-core/proxy/proxy.go:340-427 | end to end: after any run of writes, unpadding any cut of the wire gives exactly what was written |
| `VisionReader.ReaderIsCorrectExactly` | Xray-core/proxy/proxy.go:238-256 | VisionReader over any reads of a whole stream and any raw bytes behind it returns the contents and the raw bytes iff no read ends inside the last block header behind its command, with only zero length bytes so far, while the next read is not unpadded |
| `VisionReader.RawReads` | Xray-core/proxy/proxy.go:231-256 | behind an ending block every read passes through, whether it is still unpadded or not |
| `VisionReader.CutBehindDirectCorrupts` | Xray-core/proxy/proxy.go:246-256 | every stream of two or more blocks that ends with Direct is corrupted by a cut right behind the Direct byte |
| `VisionReader.LinkAtCut` | Xray-core/proxy/proxy.go:246-256 | the test after unpadding says "finished" inside the stream exactly at those bytes |
| `VisionReader.VisionReader.ReadMultiBuffer` | Xray-core/proxy/proxy.go:205-287 | one read, with the filter over what came out of it, refines the transition that the exact condition is proved about; the counter of packets decides both whether it unpads and whether it filters |
| `VisionReader.RunReader` | Xray-core/proxy/proxy.go:205-287 | any reads by a new reader, while others show packets to the same detection: what is returned is what the transitions give, and whether packets are filtered never changes back |
| `VisionStream.WireIsStream` | Xray-core/proxy/proxy.go:340-427 | after any run of writes in which padding has ended, the wire is the user id, a well-formed stream that ends with End or Direct, and raw bytes |
| `VisionStream.ReadWhatWasWritten` | Xray-core/proxy/proxy.go:205-427 | end to end: over any reads of that wire, and whatever others show to the detection, the reader returns exactly what was written iff no read derails inside the last block header |
| `VisionReader.VisionReader.UnpadBuffers` | Xray-core/proxy/proxy.go:238-245 | the loop over buffers unpads all of them in order and drops empty results only |
| `Buf.Buffer.Write` | Xray-core/common/buf/buffer.go:266-273 | appends as much as fits and reports a full buffer |
| `Buf.Buffer.Extend` | Xray-core/common/buf/buffer.go:148-157 | appends n zero bytes |
| `Buf.Buffer.ReadByte` | Xray-core/common/buf/buffer.go:291-299 | takes the first byte, or fails on an empty buffer |
| `Buf.Buffer.ReadBytes` | Xray-core/common/buf/buffer.go:302-310 | takes exactly n bytes, or fails and changes nothing |
| `Buf.Buffer.Read` | Xray-core/common/buf/buffer.go:313-324 | takes at most n bytes from the front; end of stream iff empty |
| `Buf.Buffer.Advance` | Xray-core/common/buf/buffer.go:223-229 | drops bytes from the front, up to a position that may count from the end, and stops at the end |
| `Buf.Buffer.Resize` | Xray-core/common/buf/buffer.go:203-220 | keeps exactly the given range, whose positions may count from the end, and fills up with zeros |
| `MultiBuffer.IsEmpty` | Xray-core/common/buf/multi_buffer.go:252-259 | true iff no piece has a byte |
| `MultiBuffer.SplitBytes` | Xray-core/common/buf/multi_buffer.go:100-123 | takes min(n, length) bytes from the front; bytes and rest make up the input; no empty piece is left in front |
| `MultiBuffer.SplitSize` | Xray-core/common/buf/multi_buffer.go:173-204 | chunk and rest make up the input; the chunk is as many pieces as fit, or the front of a first piece that is too long |
| `MultiBuffer.MergeBytes` | Xray-core/common/buf/multi_buffer.go:39-54 | appends the bytes, keeps every buffer within 8192 bytes, and fills each before the next is begun |
| `MultiBuffer.BufferedReader.Read` | Xray-core/common/buf/reader.go:61-86 | what is returned and what is unread make up what was unread, for any cut of the source; as much as is buffered or as one read of the source gives, up to n |
| `MultiBuffer.BufferedReader.ReadAtMost` | Xray-core/common/buf/reader.go:100-115 | at most the size, with the same conservation: the front of what is buffered, or of one read of the source |
| `Nonce.IncAddsOne` | Xray-core/common/crypto/auth.go:30-41 | the increment with carry adds one modulo 256 to the length, little-endian |
| `Nonce.KthNonce` | Xray-core/common/crypto/auth.go:30-41 | the k-th nonce is the initial one plus k modulo 256 to the length |
| `Nonce.Generator.Next` | Xray-core/common/crypto/auth.go:30-41 | the loop in place refines the increment |
| `AuthStream.RoundTrip` | Xray-core/common/crypto/auth.go:119-350 | for any codec in which opening undoes sealing, any non-empty writes then an empty one, and any cut of the wire, the reader returns exactly the written bytes and then the end |
| `AuthStream.SendAll` | Xray-core/common/crypto/auth.go:278-350 | the wire of any writes is that of the chunks they are cut into, and of the empty chunk |
| `AuthStream.AuthenticationWriter.Seal` | Xray-core/common/crypto/auth.go:249-276 | one chunk: padding length, size, sealed payload and noise, and the state after it |
| `AuthStream.AuthenticationWriter.WriteStream` | Xray-core/common/crypto/auth.go:278-310 | the input is cut into chunks that fit a buffer with size, overhead and maximal padding |
| `AuthStream.AuthenticationWriter.WritePacket` | Xray-core/common/crypto/auth.go:312-335 | the bytes of exactly the packets that fit, each sealed in the state the writer is in, and the state afterwards, for any packets |
| `AuthStream.AuthenticationWriter.WriteMultiBuffer` | Xray-core/common/crypto/auth.go:338-350 | an empty write sends the empty chunk; others are cut into chunks or sent packet by packet, by transfer type |
| `AuthStream.AuthenticationReader.ReadSize` | Xray-core/common/crypto/auth.go:119-133 | the stashed size, or the next header, in lockstep |
| `AuthStream.AuthenticationReader.ReadPayload` | Xray-core/common/crypto/auth.go:137-151 | the payload of the first pending chunk, whole, as a buffer of its own or, above the buffer size, merged into several |
| `AuthStream.AuthenticationReader.ReadInternal` | Xray-core/common/crypto/auth.go:153-204 | keeps the lockstep through chunk, stashed size of a soft read, and end; a soft read never consumes part of a chunk |
| `AuthStream.AuthenticationReader.ReadMultiBuffer` | Xray-core/common/crypto/auth.go:206-226 | one hard and up to fifteen soft reads move pending chunks to the result: no byte is lost, and chunks that fit into buffers keep their boundaries; once the end was reached, every call returns the end |
| `AuthStream.AuthenticationReader.ReadAll` | Xray-core/common/crypto/auth.go:206-226 | from any synchronised state, everything pending and then the end |
| `AuthStream.PacketLockstepExactly` | Xray-core/common/crypto/auth.go:249-335 | for every list of packets: writer and reader agree after each of them iff every packet that is dropped leaves the state as it was when its padding length was drawn |
| `AuthStream.DroppedPacketBreaksLockstep` | Xray-core/common/crypto/auth.go:249-262 | a codec that satisfies all laws and falls out of step by every packet that it drops |
| `AuthStream.InStepNext` | Xray-core/common/crypto/auth.go:249-276 | one more packet keeps the sides in step iff it is empty, fits, or its draw changes nothing |
| `AuthStream.HarmlessWire` | Xray-core/common/crypto/auth.go:312-335 | then the wire is that of the packets that fit, each sealed in the state in which the reader will open it |
| `AuthStream.PacketRoundTrip` | Xray-core/common/crypto/auth.go:153-335 | and the packets come back one by one, in order, each in a buffer of its own, over any cut of the wire, and then the end |
| `AuthStream.SendPackets` | Xray-core/common/crypto/auth.go:312-350 | the wire of any packet writes and the empty one |
| `AuthStream.SharedNonceIsLawful` | Xray-core/common/crypto/chunk.go:43-64 | sizes sealed with the payload's own authenticator satisfy the laws of the round trip |
| `AuthStream.NonceCountsOperations` | Xray-core/common/crypto/auth.go:43-100 | both sides use nonce n0+k modulo 256 to the length for the k-th operation, also when only a header has been read |
| `Frame.AddressRoundTrip` | Xray-core/common/protocol/address.go:174-259 | an address comes back iff it is an IP or a domain that the reader accepts and does not take for an IP; its own bytes are consumed in any case |
| `Frame.DestRoundTrip` | Xray-core/common/protocol/address.go:87-111 | network, port and address come back and exactly their bytes are consumed |
| `Frame.InboundRoundTrip` | Xray-core/common/mux/frame.go:91-107 | source and local addresses come back as far as they are written |
| `Frame.MetaRoundTrip` | Xray-core/common/mux/frame.go:67-222 | Unmarshal of WriteTo restores id, status, option, target, UDP address or GlobalID and consumes exactly the bytes written, iff the body is at most 512 bytes |
| `Frame.MetaLayout` | Xray-core/common/mux/frame.go:46-104 | the layout byte by byte: length, session id, status, option, and for New frames network, port, address type and address of the target |
| `Frame.OrdinaryFramesFit` | Xray-core/common/mux/frame.go:67-130 | frames without source and local address are within that limit |
| `Frame.LongFrameIsRefused` | Xray-core/common/mux/frame.go:114-130 | a New frame with source address and two domains of 250 bytes is written and then refused |
| `Frame.WriteTo` | Xray-core/common/mux/frame.go:67-111 | appends the encoding, with the length patched in |
| `Frame.Unmarshal` | Xray-core/common/mux/frame.go:114-222 | reads the same frame that the decoding function defines, from a shared stream, and makes progress |
| `Chunk.ChunkStreamReader.ReadMultiBuffer` | Xray-core/common/crypto/chunk.go:102-126 | pieces of one length-prefixed chunk in order, then the end, leaving what follows unread |
| `Chunk.Drain` | Xray-core/common/mux/client.go:335-344 | discarding consumes exactly the chunk |
| `Chunk.ReadPacket` | Xray-core/common/mux/reader.go:30-54 | a packet of at most 8192 bytes is returned whole and exactly consumed; a longer one is refused |
| `MuxWorker.Worker.Run` | Xray-core/common/mux/client.go:382-419 | over any frames in any cut, every Unmarshal is at a frame boundary; the loop goes through all frames, or ends exactly at the first New frame whose dispatch fails; isolation holds for the history of frames and outside steps |
| `MuxWorker.Worker.HandleFrame` | Xray-core/common/mux/server.go:336-361 | every status consumes exactly its payload and keeps isolation; only a failed dispatch of a New frame stops the loop |
| `MuxWorker.Worker.HandleKeep` | Xray-core/common/mux/client.go:347-370 | found, not found, and refused write: exactly the payload is consumed; a live session gets all of it, or a prefix if its output refuses a write and stands where that has left it; a session that is not there is answered with an End frame |
| `MuxWorker.Worker.HandleEnd` | Xray-core/common/mux/client.go:372-380 | exactly the payload is consumed and the session is closed, if there is one |
| `MuxWorker.Worker.HandleNew` | Xray-core/common/mux/server.go:165-298 | the dispatcher is asked for the target of the frame; a session that gets the payload is opened, for packets iff the target is UDP, iff dispatching succeeds; a failed dispatch ends the loop and opens nothing |
| `MuxWorker.Worker.DeliverStream` | Xray-core/common/mux/client.go:355-367 | all of the chunk, however it is cut into writes; or a prefix, and then the output has refused a write of what came next and stands where that has left it, the session is closed and the rest of the chunk is drained |
| `MuxWorker.Worker.DeliverPacket` | Xray-core/common/mux/client.go:355-367 | the same for a packet, which is one write |
| `MuxWorker.Worker.Outside` | Xray-core/common/mux/session.go:54-202 | exactly the steps that others take before a frame: closing sessions and allocating unused ids keeps isolation |
| `MuxLink.DeliveryKeeps` | Xray-core/common/mux/client.go:347-370 | delivering a payload, whole or as far as the output takes it, keeps every session at a prefix of the bytes due to it |
| `MuxLink.IgnoredFrameKeeps` | Xray-core/common/mux/client.go:333-345 | a skipped frame keeps isolation, also Keep frames behind an End frame |
| `MuxLink.EndFrameKeeps` | Xray-core/common/mux/client.go:372-380 | an End frame keeps isolation, also a second one or one of an unknown session |
| `MuxLink.NewFrameKeeps` | Xray-core/common/mux/server.go:165-298 | a New frame opens its session and delivers its data |
| `MuxLink.ServerOpens` | Xray-core/common/mux/server.go:264-285 | on the server exactly the New frames begin sessions |
| `MuxLink.ClientOpens` | Xray-core/common/mux/client.go:311-331 | on the client exactly the allocations do |
| `MuxLink.OutsideKeeps` | Xray-core/common/mux/session.go:54-73 | closing a session that is there and allocating an id that never was keep isolation, and nothing else counts as interference from outside |
| `MuxWriter.Writer.WriteMultiBuffer` | Xray-core/common/mux/writer.go:97-119 | all bytes go out in frames of at most 8192 bytes, New first and Keep afterwards; an empty write is one frame without data |
| `MuxWriter.Writer.NextMeta` | Xray-core/common/mux/writer.go:44-60 | New for the first frame of an opening writer, Keep otherwise; always with the session id, the destination and the inbound of the writer |
| `MuxWriter.Writer.Close` | Xray-core/common/mux/writer.go:122-136 | one End frame of the session, and no byte more, also when nothing was sent before; its error option is set iff the session had an error |
| `MuxWriter.InterleavingIsDisciplined` | Xray-core/common/mux/writer.go:71-119 | an interleaving of session writers, with any End and KeepAlive frames besides, opens no session twice |
| `MuxWriter.SentOwn` | Xray-core/common/mux/writer.go:71-119 | what the link carries for a session is what its own New and Keep frames carry |
| `MuxWriter.DueIsSent` | Xray-core/common/mux/client.go:347-380 | what is due to a session: all that the link carries for it, or a prefix once an End frame has come, which is all of it if no End frame comes in front of its data |
| `MuxWriter.KnownExactly` | Xray-core/common/mux/session.go:54-86 | which sessions there are: those opened by New frames or allocations, and no others |
| `MuxWriter.AllAsked` | Xray-core/common/mux/server.go:264-270 | over any interleaving, every request to the dispatcher names the destination of the writer of its session, and no session is asked for twice |
| `MuxWriter.Transfer` | Xray-core/common/mux/client.go:333-419 | isolation: for any writers, any interleaving with End and KeepAlive frames, any cut, and any behaviour of outputs and others, the loop gets as far as dispatching allows, exactly the begun sessions are known, and each prompt one has a prefix of its writer's bytes, all of them unless an outside step closes it, its output has refused a write and stands where that has left it, or an End frame comes in front of its data; on the server the dispatcher is asked exactly once for each session, for the destination and inbound addresses of its writer |
| `MuxSession.SessionManager.Allocate` | Xray-core/common/mux/session.go:54-73 | refuses exactly when closed or at a limit, for any limits; otherwise the next id of the 16-bit counter |
| `MuxSession.SessionManager.Get` | Xray-core/common/mux/session.go:108-118 | returns only open sessions, under their own id |
| `MuxSession.SessionManager.CloseSession` | Xray-core/common/mux/session.go:169-202 | whatever the table has under the id leaves it: only this session, if MaxConnection is not 0 modulo 65536 or MaxConcurrency is 1 |
| `MuxSession.SessionManager.CloseIfNoSessionAndIdle` | Xray-core/common/mux/session.go:120-136 | closes exactly with an empty table, a sampled size of zero and an unchanged counter; with a limit that means no live session and no allocation since |
| `MuxSession.SessionManager.Close` | Xray-core/common/mux/session.go:138-154 | closes every session of the table |
| `MuxSession.SessionManager.IdsAreUnique` | Xray-core/common/mux/session.go:54-73 | with a limit no id is used twice |
| `MuxSession.CloseTakesAnother` | Xray-core/common/mux/session.go:88-106 | in every other configuration a run of allocations uses an id again, and closing the older session takes the newer, open one out of the table |
| `MuxSession.SimpleRunIsGood` | Xray-core/common/mux/session.go:54-154 | what the simple manager promises over every run: ids strictly increase, nothing is admitted after closing, and it idles out only if the count was sampled behind the last admission |
| `MuxSession.SimpleRunAdmits` | Xray-core/common/mux/session.go:54-73 | the law of admission over whole runs: an allocation is admitted, with the next number, iff the manager has not closed and neither limit is reached by the sessions that the run has opened and closed |
| `MuxSession.RunManager` | Xray-core/common/mux/session.go:54-202 | every run of allocations, closes, samples and idle checks shows, operation by operation, what a simple manager of open session numbers shows, which keeps both limits and admits exactly what they leave room for |
| `ReplayFilter.RunInvariant` | Xray-core/common/antireplay/mapfilter.go:29-46 | after any checks every accepted value is in a pool or was accepted an interval before the last rotation, and the pools hold only accepted values |
| `ReplayFilter.ReplayWindow` | Xray-core/common/antireplay/mapfilter.go:29-46 | two acceptances of a value are at least the interval apart |
| `ReplayFilter.RefusalHasACause` | Xray-core/common/antireplay/mapfilter.go:29-46 | a refused value was accepted before |
| `ReplayFilter.AcceptedAgainExactly` | Xray-core/common/antireplay/mapfilter.go:29-46 | a value that was accepted is accepted again iff at least two checks since then have rotated the pools |
| `ReplayFilter.WhereItIs` | Xray-core/common/antireplay/mapfilter.go:33-43 | until then it is in the current pool before the first rotation and in the previous one before the second |
| `ReplayFilter.RefusedHoweverLate` | Xray-core/common/antireplay/mapfilter.go:34-38 | in particular the next check of an accepted value is refused, however late it comes |
| `ReplayFilter.RunChecks` | Xray-core/common/antireplay/mapfilter.go:29-46 | a run of Check on a new filter has both properties |
| `Features.GetFeature` | Xray-core/core/xray.go:38-45 | the first feature of the type, or none iff there is none |
| `Features.Instance.RequireFeatures` | Xray-core/core/xray.go:282-319 | keeps the invariant: every registered resolution is pending, due or called, once; the pending ones lack a feature; the others had all |
| `Features.Instance.AddFeature` | Xray-core/core/xray.go:322-376 | keeps it; exactly the pending resolutions that became resolvable become due |
| `Features.Instance.Fire` | Xray-core/core/xray.go:47-79 | calling a due resolution, at any time, keeps it |
| `Features.Instance.CalledExactlyOnce` | Xray-core/core/xray.go:282-376 | with nothing due, each registered resolution was called once or is pending once |
| `Features.RunInstance` | Xray-core/core/xray.go:282-376 | any run, with callbacks in any order: the features are those added before the start, called and pending ones are the registered ones as multisets, none was called before its features were there, and each pending one lacks a feature |
| `Geodat.DecodeVarint` | Xray-core/common/geodata/geodat_loader.go:68-82 | reads what the group-wise definition reads, modulo 2 to the 64th; short input and more than ten groups are errors |
| `Geodat.VarintRoundTrip` | Xray-core/common/geodata/geodat_loader.go:68-82 | inverts the base-128 encoding of every 64-bit number and leaves what follows |
| `Geodat.Find` | Xray-core/common/geodata/geodat_loader.go:84-145 | the loop refines the recursive search, on any bytes |
| `Geodat.SearchFindsFirst` | Xray-core/common/geodata/geodat_loader.go:84-145 | on every list of encoded records the body of the first one with exactly the code, an error iff there is none, and check-only mode agrees |
| `Geodat.SearchFindsIndex` | Xray-core/common/geodata/geodat_loader.go:84-145 | by position: the record with the code that no earlier one has |
| `Geodat.MatchesItsCode` | Xray-core/common/geodata/geodat_loader.go:107-125 | a record matches iff its whole code field is the code |
| `DnsCache.UpdateChangesOneEntry` | Xray-core/app/dns/cache_controller.go:245-309 | on the one map that both maps stand for, an update changes its own entry and no other |
| `DnsCache.LookupIsCurrent` | Xray-core/app/dns/cache_controller.go:311-320 | a returned part is always current; a current part is missing iff the current map has a record of the domain without it while the dirty map has it |
| `DnsCache.UpdateHides` | Xray-core/app/dns/cache_controller.go:263-300 | an update during a migration hides the other type iff only the dirty map has it |
| `DnsCache.HidingIsReachable` | Xray-core/app/dns/cache_controller.go:103-320 | a run of updates and a cleanup that starts a migration, after which an update hides a current answer |
| `DnsCache.FlushKeepsAnswers` | Xray-core/app/dns/cache_controller.go:221-243 | flushing an entry changes no answer and makes it droppable for good |
| `DnsCache.DropKeepsAnswers` | Xray-core/app/dns/cache_controller.go:214-218 | dropping the dirty map after the last flush loses nothing |
| `DnsCache.CacheController.UpdateRecord` | Xray-core/app/dns/cache_controller.go:245-309 | the update; the current answer of the other type is published unless it has expired; cleanup is started unless stale answers are served without a limit |
| `DnsCache.CacheController.Flush` | Xray-core/app/dns/cache_controller.go:221-243 | a batch changes no answer |
| `DnsCache.CacheController.Meanwhile` | Xray-core/app/dns/cache_controller.go:245-320 | any updates and lookups during a migration act on the simple map, and lookups return only its current values |
| `DnsCache.CacheController.Migrate` | Xray-core/app/dns/cache_controller.go:177-219 | for every order of entries and any operations before each batch and before the end, afterwards the current map alone is the simple map with exactly these operations, gap by gap, and every lookup among them returned current answers |
| `DnsCache.CacheController.WriteAndShrink` | Xray-core/app/dns/cache_controller.go:103-170 | exactly the answers of the given domains that expired before the deadline go; a migration starts iff the map has shrunk by more than 10240 entries and 65 percent of its peak, and changes no answer |
| `DnsRun.RunCache` | Xray-core/app/dns/cache_controller.go:103-320 | any run of updates, lookups, cleanups and migration steps refines one simple map: at the end both maps stand for it, lookups returned only current answers and all of them while there was no migration, and cleanups were skipped exactly during migrations |
| `DnsRun.Cached.DoCleanup` | Xray-core/app/dns/cache_controller.go:103-170 | a cleanup drops the expired answers of its domains from the simple map, or nothing during a migration |
| `DnsRun.Cached.DoMigrateStep` | Xray-core/app/dns/cache_controller.go:196-218 | a batch or the drop of the dirty map leaves the simple map as it is, with any acts in between |
| `DnsServe.CleanupRespectsServingExactly` | Xray-core/app/dns/nameserver_cached.go:22-48 | no query of the same instant can tell that a domain was cleaned up, for all cached values and options, iff not stale answers are served with a limit above 2 to the 31st |
| `DnsServe.SweepIsInvisible` | Xray-core/app/dns/cache_controller.go:103-136 | the sufficient half, through the rounded TTL and the minimum over A and AAAA |
| `DnsServe.SweepIsVisible` | Xray-core/app/dns/cache_controller.go:43-58 | for such a limit, which wraps around to a positive number, an answer that is not even stale and that cleanup takes away |
| `DnsServe.StartsExactly` | Xray-core/app/dns/cache_controller.go:306-308 | cleanup is never started exactly if stale answers are served without a limit |
| `DnsServe.MergeIsNoYounger` | Xray-core/app/dns/nameserver_cached.go:130-173 | a merged answer lives no longer than each answer in it |
| `DnsServe.ServedExactly` | Xray-core/app/dns/nameserver_cached.go:22-48 | a query is served from the cache iff every type it asks for is there and all are fresh, or stale answers are served and none expired before the limit |
| `DnsServe.ServedContent` | Xray-core/app/dns/nameserver_cached.go:130-173 | what is served: all addresses of the types asked for, A first, with the least TTL, or 1 for stale ones; an error iff there is no address, and which |
| `DnsServe.TtlAbove` | Xray-core/app/dns/dnscommon.go:44-60 | rounding up does not move a duration past a whole number of seconds |
| `DnsServe.CleanupAndQuery` | Xray-core/app/dns/cache_controller.go:103-170 | cleanup of any domains of a controller followed by a query serves what the query would have served before |
| `DnsParallel.MakeGroups` | Xray-core/app/dns/dns.go:479-533 | the groups tile the clients and are exactly the classes of the group number |
| `DnsParallel.SameGroupExactly` | Xray-core/app/dns/dns.go:477-478 | two clients share a group iff everybody from one to the other has the same policy: maximal runs |
| `DnsParallel.ParallelQuery` | Xray-core/app/dns/dns.go:386-438 | for every order of arrival: answered from the lowest-numbered group with any success, by its first success heard, at the first moment at which that is decided; fails with all errors in client order iff nobody succeeds |
| `DnsParallel.RaceTwice` | Xray-core/app/dns/dns.go:386-438 | two orders of arrival give answers from the same group, or the same failure |
| `DnsParallel.AdvanceGroups` | Xray-core/app/dns/dns.go:406-434 | the cursor passes exactly the groups that failed completely and stops at a winner or at a group that is waited for |
| `DnsParallel.SerialQuery` | Xray-core/app/dns/dns.go:363-384 | the first client that is not skipped and gives addresses; otherwise the merged errors of those asked |
| `DnsParallel.BothWaysAgreeExactly` | Xray-core/app/dns/dns.go:363-438 | with groups of one, if the serial query has an answer the parallel one has the same for every order iff that client reports no error beside its addresses, which no client of this code does; if it has none both fail |
| `DnsParallel.QueryIP` | Xray-core/app/dns/nameserver.go:168-228 | whatever the server answers and the filters keep, there are addresses iff there is no error; for filters that select by a property, the addresses are those that are expected and not unexpected where that is demanded, and where it is preferred if there are any |
| `DnsParallel.MergeQueryErrors` | Xray-core/app/dns/dns.go:339-361 | by the members of the list: all "record not found" gives that; otherwise the first other error decides, and a later one of another kind makes the combination of all |
| `DnsParallel.MergedMeans` | Xray-core/app/dns/dns.go:339-361 | the same for the function that the callers are specified with |
| `DnsParallel.SortClients` | Xray-core/app/dns/dns.go:267-328 | by position: exactly the clients of matched rules in rule order and then, if fallback is on, those not exempt in ascending order, each once, up to the first final one; the first client if that is nobody |
| `DnsParallel.CandidatesMean` | Xray-core/app/dns/dns.go:274-312 | without final clients the list is exactly the askable ones, in that order |
| `DnsParallel.FallbacksAre` | Xray-core/app/dns/dns.go:299-308 | the fallbacks are exactly the clients that are not exempt, ascending |
| `IPAddress.SameKeySameBucket` | Xray-core/common/geodata/ip_matcher.go:194-215 | equal keys mean equal first 24 or 64 bits, for plain and mapped addresses |
| `IPAddress.KeyIsForValid` | Xray-core/common/geodata/ip_matcher.go:194-215 | there is a key iff the address parses, and it names the family |
| `IPAddress.ShortPrefixIsConstant` | Xray-core/common/geodata/ip_matcher.go:89-90 | a prefix of at most 24 (64) bits contains all of a bucket or nothing of it |
| `IPAddress.ContainsExactly` | Xray-core/common/geodata/ip_matcher.go:63-77 | a prefix contains exactly the addresses of its family with the same leading bits, by the bytes |
| `IPMatcher.MatchIsConstant` | Xray-core/common/geodata/ip_matcher.go:63-77 | so does a union of such prefixes, reversed or not: the matcher cannot tell a bucket's addresses apart |
| `IPMatcher.MatchMeans` | Xray-core/common/geodata/ip_matcher.go:55-77 | a matcher built from rules answers by them: an address is accepted iff there is a rule for its family and (some rule has the same leading bits) differs from reversed |
| `IPMatcher.AddCidrs` | Xray-core/common/geodata/ip_matcher.go:882-904 | each builder gets exactly the well-formed rules of its family |
| `IPMatcher.CreateFrom` | Xray-core/common/geodata/ip_matcher.go:879-949 | for whatever prefix lists with the right union the builders make, the set covers exactly what the rules cover and its maxima are sound |
| `IPMatcher.LongestPrefix` | Xray-core/common/geodata/ip_matcher.go:921-946 | 0xff iff there is no prefix, 0xfe iff all are /0, else a bound on every length |
| `IPMatcher.AnyMatch` | Xray-core/common/geodata/ip_matcher.go:80-127 | equals "some address matches", for any list, and by the bits of the rules that the set was built from, reversed or not |
| `IPMatcher.Matches` | Xray-core/common/geodata/ip_matcher.go:130-192 | equals "the list is not empty and every address is valid and matches", and the same by the rules |
| `IPFilter.FilterIPs` | Xray-core/common/geodata/ip_matcher.go:218-305 | as multisets, splits exactly the valid addresses into matching and not matching |
| `IPFilter.FilterIPsByAny` | Xray-core/common/geodata/ip_matcher.go:352-366 | splits them by "some matcher accepts" iff there is a matcher or no invalid address |
| `IPMulti.GeneralAnyMatch` | Xray-core/common/geodata/ip_matcher.go:332-339 | some matcher accepts some address |
| `IPMulti.GeneralMatches` | Xray-core/common/geodata/ip_matcher.go:342-349 | one matcher accepts all addresses |
| `IPMulti.HeuristicAnyMatch` | Xray-core/common/geodata/ip_matcher.go:402-449 | the same answer as the general form, with shared buckets and the skip states |
| `IPMulti.AnyOfFast` | Xray-core/common/geodata/ip_matcher.go:413-447 | skipping matchers by state loses no match, and a bucket is entered only when no bucketing matcher accepts anything in it |
| `IPMulti.IpViews.EnsureForMatcher` | Xray-core/common/geodata/ip_matcher.go:515-591 | succeeds iff all addresses are valid, and then what the matcher reads covers exactly the addresses of each family |
| `IPMulti.HeuristicMatches` | Xray-core/common/geodata/ip_matcher.go:452-508 | the same answer as the general form, from shared views |

## Left out

- VisionPadding.UnpadInvertsPadding: assumes that no buffer of raw bytes behind the last block starts with the user id; such a buffer would be taken for a new session, as the code does.
- VisionWriter.VisionWriter.WriteMultiBuffer: assumes a safe seed, buffers of at most 8192 bytes, and that a long server hello is backed by memory up to its cipher suite; runs with an unsafe seed that happen not to panic are left out. Raw-connection unwrapping and splice flags are not modelled.
- VisionFilter.FilterKeepsInv: assumes, as everything about the filter does, that a server hello of at least 79 bytes is backed by memory up to its cipher suite; the code panics otherwise.
- VisionReader.VisionReader.ReadMultiBuffer: the merge of the TLS connection's buffered input after a switch to direct copy and a read that returns data together with an error are not modelled.
- Buf.Buffer.Resize: positions before the beginning of the buffer, for which the code would bring back bytes that were read already, are left out, as in `Advance`.
- MultiBuffer.BufferedReader.Read: the underlying reader returns data or the end of the stream, never both at once and no other error; the same holds for `ReadAtMost`, and custom splitters are left out.
- AuthStream.AuthenticationReader.ReadPayload: end of stream and other read errors are one failure.
- Frame.MetaRoundTrip: domains of 1 to 255 bytes; an empty domain makes the reader panic and 256 bytes do not fit the length byte.
- Frame.WriteTo: assumes room for the frame in the buffer, as the fresh buffer of the caller has, and addresses that can be written; the error for a domain above 256 bytes is left out.
- MuxWriter.Transfer: the writers are those of stream sessions; the receive loop handles packet sessions as well.
- MuxWriter.Writer.WriteMultiBuffer: stream transfer; packets and their UDP addresses are left out.
- Chunk.ChunkStreamReader.ReadMultiBuffer: the reader of one chunk that mux uses.
- MuxWorker.Worker.HandleNew: the outcome of dispatching and adding the session is a parameter; XUDP, the reverse-proxy context and the allowed network are left out.
- MuxSession.RunManager: for MaxConnection not zero modulo 65536, without which the counter comes round.
- DnsCache.CacheController.Migrate: without the path that recovers from a panic, and with the cache enabled.
- DnsCache.CacheController.WriteAndShrink: the list of expired keys is arbitrary; how it is collected is left out.
- DnsServe.CleanupRespectsServingExactly: time is whole nanoseconds; the conversion of seconds to a floating-point number and to int32 is taken as exact.
- DnsServe.CleanupAndQuery: for a controller that is not migrating, because cleanup does nothing during a migration.
- DnsParallel.SortClients: the matching of domain rules is the list of matched clients.
- IPMatcher.CreateFrom: netipx is any list of prefixes with the right union.
- IPMulti.IpViews.EnsureForMatcher: the views are stored when all addresses have been gone through; the half-built views of a failure are not modelled, since nobody reads them.
- Features.Instance.Fire: the arguments of a callback, looked up by assignability, and its error are left out.
- Lists of buffers and DNS records are values: pooling, releasing and aliasing of buffers are not captured; `Buffer` itself is a class over an array.
- HeuristicMultiIPMatcher.FilterIPs, because its bucketed and precise views are separate and no partition holds.
- The single-flight fetch, publish and subscribe, and query building of the DNS servers.
- XUDP, pipes, timers, the worker picker, logging, metrics and observers.
- The lru cache, BufferedWriter, buf.Copy's statistics and readv.
- Configuration, generated code and the TypeScript application.
