# Models of the NeonCore byte-stream codecs and their state machines

NeonCore's kernel speaks its proxy protocols with hand-written, resumable codecs: bytes arrive in
arbitrary pieces, are buffered, and frames are taken off as they become complete. This project
models those codecs and the small state machines around them in Dafny and proves that every
chunking and interleaving agrees with a simple one-shot meaning, that what one end writes the
other end reads, and, where that depends on a condition, which condition it is exactly.

`Framing.dfy` holds the common theory. A decoder is a *step* function on the bytes at hand (wait,
take a frame, fail); `Drain` is its one-shot meaning and `FeedAll` what a connection does chunk by
chunk. For every *incremental* decoder the two agree. Each codec is then a step function, a class
or method that follows the source loop by loop and is proved equal to `Drain`, an encoder, and the
lemmas that relate encoder and decoder in both directions.

| file | what it models |
|---|---|
| `Framing.dfy`, `Bytes.dfy`, `Utf8.dfy` | resumable decoders; bytes, integers and chunk lists; well-formed text |
| `VisionUnpadding.dfy` | the Vision unpadding decoder with its buffered and its zero-copy path |
| `VisionStream.dfy` | a grammar of Vision streams; whole runs of pushes |
| `VisionUplink.dfy`, `VisionTransparency.dfy` | block padding and the uplink's command state machine; what the peer makes of it |
| `Xudp.dfy`, `VlessMux.dfy`, `MuxTransparency.dfy` | XUDP frames; writer and reader of the mux connection; which packets arrive through Vision |
| `RequestOrder.dfy`, `MuxWorker.dfy` | overlapping requests, in which order they register and are written; the mux worker, with requests and replies in any interleaving, and which waiter gets which reply |
| `GrpcHunk.dfy`, `RecordLimited.dfy` | gRPC hunks with varints; the reader that stops at TLS record boundaries |
| `PacketSession.dfy` | the demultiplexer, refining one arrival-ordered list |
| `AnyTlsFrames.dfy`, `AnyTlsPadding.dfy` | frames; the padded writer, the write loop, and what their reader makes of fills |
| `AnyTlsSession.dfy`, `AnyTlsPool.dfy` | stream multiplexing, the idle-session pool |
| `ShadowTls.dfy`, `TokenBucket.dfy` | the chained-MAC record layer; the rate limiter |
| `ChunkSize.dfy`, `ChunkedBody.dfy` | HTTP/1 chunk size lines and chunked bodies |
| `SeedCfb.dfy` | byte-wise SEED-CFB, for an arbitrary block cipher |
| `PluginOptions.dfy` | the plugin-option printer (Swift), parser and sanitiser (Rust) |
| `VerifySimple.dfy` | the `verify_simple` codec and Adler-32 |

Where the code meets its property only under a condition, the condition is part of the result:

- Vision block lengths are cast to u16 while the uplink reads up to 128 KiB. The peer stays in step
  if and only if no read in a command-0 block exceeds 65535 bytes (`VisionTransparency.InSyncExactly`);
  the terminal block and the raw reads are not limited. Its output is right at every moment if and
  only if all reads but the last fit and the last one fits or has a byte above 2 at its length modulo
  65536 (`VisionTransparency.OutputExactly`); `OverlongReadIsLost` is an input that loses bytes.
- Under Vision an XUDP packet arrives if and only if its frame passes in the same sense, which is less
  than the payload limit the encoder checks (`MuxTransparency.PacketArrives`); the reader of a whole
  list stays in step if and only if every frame fits (`MuxTransparency.MuxInStepExactly`).
  `MuxTransparency.PacketIsLost` is a packet that does not arrive: 65517 bytes, sent first to an IPv4
  address; as a SOCKS datagram it has 65527 bytes, which only UDP over IPv6 carries.
- `send_packet` takes an id, registers its waiter and then waits for the writer's lock, so calls
  overlap. For every run and key the ids written are a prefix of the ids registered if and only if at
  every write for the key no request registered for it earlier is still unwritten
  (`RequestOrder.WrittenLineUp`); for calls that do not overlap that is, if and only if nothing for the
  key was written behind a request the encoder refused (`RequestOrder.SequentialInTurn`). Nothing in
  the code keeps writes in that order. The SOCKS relay sends each datagram from a task of its own, up to
  512 at once, on a multi-threaded runtime (`crates/neoncore-kernel/src/main.rs:475-505`, `:62`), and
  they share one worker (`crates/neoncore-kernel/src/adapter/vless.rs:187-217`): two datagrams to one
  target can be written in the other order, and the first reply then goes to the wrong one
  (`MuxWorker.CrossedRequestsCrossReplies`). It never hands over a packet the encoder refuses
  (datagrams of at most 65536 bytes with a header, domains of at most 255 bytes);
  `MuxWorker.RefusedRequestTakesReply` is a run for a caller that does.
- The reader of an AnyTLS session is in step after everything the write loop puts on the wire if and
  only if the length of every fill, divided by 65536, is a multiple of 7
  (`AnyTlsPadding.LoopReadInStep`); `LongFillSpoils` is a size that puts it out of step.
- Every frame queued on an AnyTLS session reaches the wire if and only if none is too large and nothing
  is queued behind a close or a refused waste frame (`AnyTlsPadding.EverythingSent`). A write of the
  relay becomes one frame, and the relay's buffers hold 128 KiB
  (`crates/neoncore-kernel/src/flow.rs:15-16`); a write of that size closes the session with
  everything behind it (`LargeWriteIsLost`).
- A ShadowTLS version-3 stream verifies if and only if no write was empty
  (`ShadowTls.V3Synchronised`); both ends then hold the same transcript after each record, also within
  a write (`ShadowTls.V3InStepAfterEachRecord`).
- Draining a chunked body succeeds if and only if its chunks total at most 1 MiB
  (`ChunkedBody.BodyDrained`).
- A rate-limited write stays inside its buffer if and only if the buffer is not empty
  (`TokenBucket.AllowedFits`).
- Polling an AnyTLS stream with a full buffer loses nothing if and only if everything in front of the
  last queued message is empty (`AnyTlsSession.StreamReader.PollRead`). No caller in the repository is
  shown to poll with a full buffer.
- A targeted delivery keeps the demultiplexer's structures in step for its key if and only if the id
  it takes is registered there once (`PacketSession.DeliveryInStep`).

Conventions: a byte is an integer from 0 to 255 (a `bv8` in the cipher); casts to u16 and u32 are
written out; the MAC, the block cipher and the clock are arbitrary functions or parameters; what a
transport does when polled is a parameter of the method. Ghost fields record histories (bytes
delivered, resolutions, bucket snapshots) and never influence what a method returns.

## Model

| member | source | states |
|---|---|---|
| Framing.DrainAppend | crates/neoncore-kernel/src/adapter/vless.rs:2290-2439 | for any incremental decoder, draining a longer buffer is draining the first part and going on from its residue |
| Framing.ChunkingIrrelevant | crates/neoncore-kernel/src/adapter/vless.rs:2290-2439 | for any incremental decoder and any way of cutting the input, feeding chunk by chunk ends in the state, output and residue of one-shot parsing |
| Framing.FreshChunking | crates/neoncore-kernel/src/adapter/vless.rs:1892-1931 | the same from a fresh connection; it is what every incremental parser here is measured against |
| Framing.DrainStops | crates/neoncore-kernel/src/adapter/vless.rs:1892-1931 | a drained buffer holds only a suffix of the input on which the decoder waits (or fails): no complete frame is ever left unread |
| VisionUnpadding.VisionIncremental | crates/neoncore-kernel/src/adapter/vless.rs:2290-2439 | a verdict on the bytes at hand never changes when more bytes arrive, and no frame is taken before it is complete |
| VisionUnpadding.VisionNeverFails | crates/neoncore-kernel/src/adapter/vless.rs:2290-2439 | unpadding never fails, keeps its UUID, never leaves the direct mode once reached, and is raw when direct |
| VisionUnpadding.TurnDrain | crates/neoncore-kernel/src/adapter/vless.rs:2316-2362 | a turn of either loop, including the one that forwards everything left, has the effect of the one-shot parse |
| VisionUnpadding.Unpadder.constructor | crates/neoncore-kernel/src/adapter/vless.rs:2282-2288 | a new decoder has seen nothing |
| VisionUnpadding.Unpadder.Push | crates/neoncore-kernel/src/adapter/vless.rs:2290-2367 | whichever path is taken, the output, residue and mode are those of draining the buffered bytes followed by the new ones; the switch is reported exactly when this push completes a command-2 block |
| VisionUnpadding.Unpadder.PushBuffered | crates/neoncore-kernel/src/adapter/vless.rs:2303-2366 | the buffered path agrees with one-shot parsing |
| VisionUnpadding.Unpadder.BufferedTurn | crates/neoncore-kernel/src/adapter/vless.rs:2307-2362 | one turn of the buffered loop is one step of the decoder, except that the turn that makes the mode raw forwards the rest and is the last |
| VisionUnpadding.Unpadder.PushWithoutPending | crates/neoncore-kernel/src/adapter/vless.rs:2369-2439 | the zero-copy path agrees with one-shot parsing, hence with the buffered path |
| VisionUnpadding.Unpadder.WalkBlocks | crates/neoncore-kernel/src/adapter/vless.rs:2392-2438 | walking blocks by offset over the input agrees with taking them off the front |
| VisionUnpadding.Unpadder.OffsetTurn | crates/neoncore-kernel/src/adapter/vless.rs:2393-2437 | one turn of the offset loop is one step of the decoder on the tail of the input; an incomplete tail is kept |
| VisionStream.StepBlock | crates/neoncore-kernel/src/adapter/vless.rs:2325-2361 | an encoded block is taken whole with exactly its content, whatever follows |
| VisionStream.TakenBlock | crates/neoncore-kernel/src/adapter/vless.rs:2325-2361 | conversely, what is taken as a block is the encoding of one |
| VisionStream.DrainBlocks | crates/neoncore-kernel/src/adapter/vless.rs:2290-2439 | command-0 blocks with at most one terminal block: the contents come out in order, and what follows a terminal block comes out raw |
| VisionStream.ParsedBlocks | crates/neoncore-kernel/src/adapter/vless.rs:2290-2439 | every byte stream splits into the blocks the decoder took and a rest it passed through or kept; direct is reached only behind a complete command-2 block |
| VisionStream.VisionChunking | crates/neoncore-kernel/src/adapter/vless.rs:2290-2439 | after any list of pushes the output, residue and mode are those of one-shot parsing of all bytes |
| VisionStream.Downlink | crates/neoncore-kernel/src/adapter/vless.rs:2053-2067 | the downlink loop writes exactly the one-shot unpadding of everything it read |
| VisionStream.DirectOnce | crates/neoncore-kernel/src/adapter/vless.rs:2290-2439 | over a whole run the switch is reported at most once, and it is reported if and only if the stream is the UUID, command-0 blocks and a command-2 block, followed by anything |
| VisionStream.DirectStream | crates/neoncore-kernel/src/adapter/vless.rs:2344-2356 | a stream puts the decoder in direct mode if and only if it is such a stream |
| VisionUplink.BlockReadsBack | crates/neoncore-kernel/src/adapter/vless.rs:2250-2273 | a written block is taken back whole with its content if and only if the content length survives the cast to u16 |
| VisionUplink.BlockLayout | crates/neoncore-kernel/src/adapter/vless.rs:2250-2272 | every byte of a written block: with `long` it has 900 bytes behind its header if the content is shorter, the difference stands at offset 3, and what follows the content is zero |
| VisionUplink.BuildBlock | crates/neoncore-kernel/src/adapter/vless.rs:2250-2272 | the block as the code builds it, part by part |
| VisionUplink.WireLengths | crates/neoncore-kernel/src/adapter/vless.rs:2145-2272 | on the wire no padded block carries fewer than 900 bytes behind its header |
| VisionUplink.RecordsAreComplete | crates/neoncore-kernel/src/adapter/vless.rs:2893-2910 | the record check accepts exactly the concatenations of complete application-data records |
| VisionUplink.IsCompleteTlsApplicationData | crates/neoncore-kernel/src/adapter/vless.rs:2893-2910 | the offset loop decides that question |
| VisionUplink.UplinkState.constructor | crates/neoncore-kernel/src/adapter/vless.rs:2769-2774 | a new uplink pads, has seen no TLS, has sent no direct command and may filter eight reads |
| VisionUplink.UplinkState.FilterTls | crates/neoncore-kernel/src/adapter/vless.rs:2841-2866 | each of the first eight reads uses up one filter step, and a handshake record of six bytes or more sets the TLS flag |
| VisionUplink.UplinkState.CommandFor | crates/neoncore-kernel/src/adapter/vless.rs:2780-2804 | the command and the new state are those of the transition functions the run results are about |
| VisionUplink.WhilePadding | crates/neoncore-kernel/src/adapter/vless.rs:2780-2866 | in every reachable padding state no direct command has been sent, and TLS has been seen if and only if one of the first eight reads opened with a handshake record |
| VisionUplink.CommandExactly | crates/neoncore-kernel/src/adapter/vless.rs:2780-2804 | a padded read goes out with command 2 if and only if it is a non-empty run of complete application-data records, large enough or confirmed by the peer, after such a handshake; with command 1 if and only if no handshake has been seen up to it and it does not open like one; otherwise with 0 |
| VisionUplink.PaddingEndsOnce | crates/neoncore-kernel/src/adapter/vless.rs:2785-2803 | after a command other than 0 every later read is written as it is |
| VisionTransparency.BlockInSync | crates/neoncore-kernel/src/adapter/vless.rs:2250-2273 | a block gives its content and leaves the decoder in step if and only if it is a terminal one or its content is at most 65535 bytes |
| VisionTransparency.BlockOutput | crates/neoncore-kernel/src/adapter/vless.rs:2250-2273 | a block outputs exactly its content if and only if it is a terminal one, its content is at most 65535 bytes, or the byte of the content at its length modulo 65536 is above 2, so that it cannot be a command |
| VisionTransparency.OverlongOutput | crates/neoncore-kernel/src/adapter/vless.rs:2323-2327 | an overlong command-0 block is output exactly, by a decoder that is raw from then on, or with bytes missing |
| VisionTransparency.InSyncExactly | crates/neoncore-kernel/src/adapter/vless.rs:2071-2100 | for every list of reads, the peer has at every moment output exactly what was read, holds nothing back and is in the mode of the uplink, if and only if no read in a command-0 block is longer than 65535 bytes |
| VisionTransparency.OutputExactly | crates/neoncore-kernel/src/adapter/vless.rs:2071-2100 | for every list of reads, the peer has at every moment output exactly what was read, if and only if every read but the last fits its block and the last one fits or has a byte above 2 behind the cut |
| VisionTransparency.Uplink | crates/neoncore-kernel/src/adapter/vless.rs:2072-2100 | the loop writes the UUID block, padded blocks while padding lasts, then raw bytes; however the bytes are cut, what the peer outputs is at every moment what was read if and only if the reads meet that condition; if all fit, nothing is held back either |
| VisionTransparency.OverlongReadIsLost | crates/neoncore-kernel/src/adapter/vless.rs:2078-2085 | an input on which bytes are lost: behind any first payload of at most 16384 bytes and any read that opens with a TLS handshake record, a read of 65536 zero bytes arrives as nothing |
| Xudp.TargetRoundTrip | crates/neoncore-kernel/src/adapter/vless.rs:1933-2001 | every encodable target is decoded to itself, with its exact length, whatever follows |
| Xudp.DecodedTarget | crates/neoncore-kernel/src/adapter/vless.rs:1938-1981 | conversely, whatever decodes is a valid target and the bytes used are its encoding with the address type they carry |
| Utf8.Utf8Exactly | crates/neoncore-kernel/src/adapter/vless.rs:1962 | the bytes a domain name may have are exactly the encodings of sequences of Unicode characters |
| Xudp.XudpIncremental | crates/neoncore-kernel/src/adapter/vless.rs:1892-1931 | an incomplete frame is never consumed and a verdict does not change when more bytes arrive |
| Xudp.XudpReader.TakePacket | crates/neoncore-kernel/src/adapter/vless.rs:1892-1931 | the packet returned is the next one of one-shot parsing and the buffer is what is left to parse; nothing is consumed behind a malformed frame |
| Xudp.XudpReader.TakeTurn | crates/neoncore-kernel/src/adapter/vless.rs:1893-1930 | one turn takes one complete frame or nothing; keep-alives, frames without data and empty payloads are skipped |
| Xudp.StepItem | crates/neoncore-kernel/src/adapter/vless.rs:1864-1890 | an encoded packet, new or kept, is read as that packet whatever follows; an empty payload is read as nothing |
| Xudp.StepUntargeted | crates/neoncore-kernel/src/adapter/vless.rs:1892-1931 | a frame that names no target is skipped if it is a keep-alive, lacks the data option or carries nothing, and is a packet without a target otherwise, for every metadata, payload and rest |
| Xudp.StepTargeted | crates/neoncore-kernel/src/adapter/vless.rs:1892-1931 | a frame that names a target is the same with that target, and a failure if the target cannot be decoded |
| Xudp.StepShort | crates/neoncore-kernel/src/adapter/vless.rs:1897-1900 | metadata shorter than four bytes is a failure |
| Xudp.DrainPeer | crates/neoncore-kernel/src/adapter/vless.rs:1892-1931 | any readable frames, keep-alives and frames without a target among them, are read as exactly the packets they carry |
| Xudp.OnlyReadable | crates/neoncore-kernel/src/adapter/vless.rs:1892-1931 | conversely, of any bytes only readable frames are taken |
| Xudp.BuildXudp | crates/neoncore-kernel/src/adapter/vless.rs:1864-1890 | the frame as the code builds it, field by field |
| Xudp.XudpRoundTrip | crates/neoncore-kernel/src/adapter/vless.rs:1864-1931 | every list of encodable packets, cut in any way, is read back in order without residue; only packets with an empty payload are missing |
| VlessMux.MuxWriter.constructor | crates/neoncore-kernel/src/adapter/vless.rs:1720-1725 | nothing written; the UUID is due and the next frame is the first |
| VlessMux.MuxWriter.WriteFrame | crates/neoncore-kernel/src/adapter/vless.rs:1785-1796 | with Vision a frame goes into a command-0 block, behind the UUID the first time; otherwise it goes out as it is |
| VlessMux.MuxWriter.Send | crates/neoncore-kernel/src/adapter/vless.rs:1743-1746 | in every reachable state the bytes written are the accepted packets, the first flagged new; a refused packet writes nothing and does not use up the flag |
| VlessMux.SendAll | crates/neoncore-kernel/src/adapter/vless.rs:1743-1746 | a list of requests is written as the frames of those that can be encoded |
| VlessMux.ReadPackets | crates/neoncore-kernel/src/adapter/vless.rs:1799-1862 | for arbitrary bytes cut in any way, the packets read are those of parsing the unpadded stream in one piece, and reading fails exactly when that does |
| VlessMux.TakeAll | crates/neoncore-kernel/src/adapter/vless.rs:1801-1804 | taking packets until none is complete is draining the buffer |
| MuxTransparency.PacketArrives | crates/neoncore-kernel/src/adapter/vless.rs:1785-1825 | one packet in one Vision block is read by the peer if and only if its frame is at most 65535 bytes or the byte of the frame at its length modulo 65536 is above 2 |
| MuxTransparency.PacketIsLost | crates/neoncore-kernel/src/adapter/vless.rs:1785-1825 | 65517 bytes, sent first to an IPv4 address, pass the encoder and are not read by the peer |
| MuxTransparency.MuxInStepExactly | crates/neoncore-kernel/src/adapter/vless.rs:1785-1825 | the decoder keeps in step after every packet of a list if and only if every frame is at most 65535 bytes |
| MuxTransparency.MuxReadsExactly | crates/neoncore-kernel/src/adapter/vless.rs:1785-1862 | for every list of encodable packets under Vision, at every moment exactly the packets written have been read and the buffer is empty, if and only if every frame but the last fits its block and the last one arrives |
| MuxTransparency.MuxRoundTrip | crates/neoncore-kernel/src/adapter/vless.rs:1785-1862 | with or without Vision and however the bytes are cut, packets whose frames fit are read as exactly those packets, in order, with nothing left |
| MuxTransparency.RawBlock | crates/neoncore-kernel/src/adapter/vless.rs:1892-1931 | a block that reaches the reader with its header is never read as the packet in it |
| MuxWorker.Worker.constructor | crates/neoncore-kernel/src/adapter/vless.rs:1719-1730 | nobody waits, and nothing is written or read |
| RequestOrder.WrittenLineUp | crates/neoncore-kernel/src/adapter/vless.rs:1738-1751 | for every run, however its calls overlap, and every key, the ids written for the key are a prefix of the ids registered for it, if and only if at every write for the key no request registered for it earlier is still unwritten |
| RequestOrder.SequentialInTurn | crates/neoncore-kernel/src/adapter/vless.rs:1733-1751 | for calls that do not overlap that condition holds if and only if nothing was written for the key behind a refused request |
| MuxWorker.Worker.IssueId | crates/neoncore-kernel/src/adapter/vless.rs:1738-1741 | a call takes an id that no other call has |
| MuxWorker.Worker.RegisterRequest | crates/neoncore-kernel/src/adapter/vless.rs:1737-1741 | the waiter is registered under the key of the target, whatever other calls have done since the id was taken |
| MuxWorker.Worker.WriteRequest | crates/neoncore-kernel/src/adapter/vless.rs:1742-1746 | under the lock of the writer a registered request is encoded and given to the stream, or refused; in every reachable state the frames given to the stream are those of the requests written, in that order |
| MuxWorker.Worker.SendPacket | crates/neoncore-kernel/src/adapter/vless.rs:1733-1751 | a call whose steps nothing comes between: a closed worker refuses; otherwise the waiter gets the next id and is registered before the packet is encoded; a refused packet leaves it registered, a failed write removes it and closes the worker |
| MuxWorker.Worker.GiveUp | crates/neoncore-kernel/src/adapter/vless.rs:1755-1765 | a waiter whose reply does not come leaves the demultiplexer |
| MuxWorker.Worker.Close | crates/neoncore-kernel/src/adapter/vless.rs:1772-1781 | everyone still waiting is refused and the worker stays closed |
| MuxWorker.Worker.Receive | crates/neoncore-kernel/src/adapter/vless.rs:1805-1822 | a read is unpadded and appended; packets taken and bytes left over stay those of one-shot parsing of everything received |
| MuxWorker.Worker.NextPacket | crates/neoncore-kernel/src/adapter/vless.rs:1836-1861 | the next packet of the reply stream, if a whole one is there, is dispatched; a malformed frame closes the worker |
| MuxWorker.Worker.DispatchPacket | crates/neoncore-kernel/src/adapter/vless.rs:1846-1852 | a targeted reply resolves the oldest waiter of its key, one without a target the oldest waiter of all |
| MuxWorker.RepliesInOrder | crates/neoncore-kernel/src/adapter/vless.rs:1733-1862 | in every run without failures and timeouts, with calls overlapping in any way, the i-th accepted reply for a key resolves the i-th waiter registered for it; the i-th written request is the one of that waiter, for every i, if and only if every write for the key was in turn |
| MuxWorker.RepliesRead | crates/neoncore-kernel/src/adapter/vless.rs:1799-1862 | a reply stream encoded by the peer, cut in any way and read to the end, has given exactly its packets and left nothing |
| MuxWorker.PeerStreamRead | crates/neoncore-kernel/src/adapter/vless.rs:1799-1862 | a stream of any readable frames, replies without a target and keep-alives among them, padded and cut in any way and read to the end, has given exactly the packets it carries and left nothing |
| MuxWorker.EveryReplyArrives | crates/neoncore-kernel/src/adapter/vless.rs:1733-1862 | end to end, with or without Vision: the replies for a key resolve its waiters in order of registration, none lost and none doubled, and if every write for the key was in turn the i-th reply resolves the waiter of the i-th written request |
| MuxWorker.RefusedRequestTakesReply | crates/neoncore-kernel/src/adapter/vless.rs:1738-1746 | a run of the worker for a caller that sends 65536 bytes and then one byte to the same target: only the second packet is written, and the reply to it goes to the waiter of the first |
| MuxWorker.CrossedRequestsCrossReplies | crates/neoncore-kernel/src/adapter/vless.rs:1738-1751 | a run of the worker for two packets to one target with nothing refused: the second to register is written first, and the reply to it goes to the waiter of the other |
| GrpcHunk.WriteVarint | crates/neoncore-kernel/src/adapter/vless.rs:1600-1612 | the loop writes the base-128 form |
| GrpcHunk.ReadVarint | crates/neoncore-kernel/src/adapter/vless.rs:1110-1122 | the loop reads what the recursive reader reads, within ten bytes |
| GrpcHunk.VarintRoundTrip | crates/neoncore-kernel/src/adapter/vless.rs:1110-1122 | reading inverts writing for every u64 and any trailing bytes, and reports the length |
| GrpcHunk.MessageRoundTrip | crates/neoncore-kernel/src/adapter/vless.rs:1100-1108 | a message decodes to its payload |
| GrpcHunk.BuildHunk | crates/neoncore-kernel/src/adapter/vless.rs:1055-1066 | the hunk as the code builds it |
| GrpcHunk.ReadMessage | crates/neoncore-kernel/src/adapter/vless.rs:1100-1108 | the message as the code reads it |
| GrpcHunk.DroppedHunk | crates/neoncore-kernel/src/adapter/vless.rs:1073-1108 | a complete hunk whose message is empty, opens with another field or announces more than it holds is dropped |
| GrpcHunk.HunkDecoder.Push | crates/neoncore-kernel/src/adapter/vless.rs:1073-1098 | a push drains the buffered bytes followed by the new ones |
| GrpcHunk.HunkIncremental | crates/neoncore-kernel/src/adapter/vless.rs:1073-1098 | no hunk is taken before it is complete and a verdict does not change |
| GrpcHunk.HunkRoundTrip | crates/neoncore-kernel/src/adapter/vless.rs:1055-1122 | every list of payloads with messages below 2^32 bytes, cut in any way, comes out as it went in |
| GrpcHunk.SmallEncodable | crates/neoncore-kernel/src/adapter/vless.rs:1055-1066 | every payload below 2^32 - 6 bytes can be encoded |
| RecordLimited.RecordLimitedTcp.constructor | crates/neoncore-kernel/src/adapter/vless.rs:2663-2672 | nothing delivered, nothing under way |
| RecordLimited.RecordLimitedTcp.PollRead | crates/neoncore-kernel/src/adapter/vless.rs:2680-2742 | delivered bytes are a prefix of the transport; the fields describe the record under way; a read yields exactly the least of what is offered, asked for, buffered and left in the header or body, so it never crosses a boundary; a yield is due exactly when a record completes and is taken once |
| RecordLimited.RecordLimitedTcp.Account | crates/neoncore-kernel/src/adapter/vless.rs:2709-2738 | moving over bytes within the header or body keeps the fields true and schedules a yield exactly at the end of a record |
| RecordLimited.MoreBytes | crates/neoncore-kernel/src/adapter/vless.rs:2709-2738 | bytes within the record under way leave the finished records alone or add exactly that one |
| PacketSession.PacketSessionDemux.constructor | crates/neoncore-kernel/src/packet_session.rs:30-32 | an empty demultiplexer refines the empty list |
| PacketSession.PacketSessionDemux.RegisterWaiter | crates/neoncore-kernel/src/packet_session.rs:41-59 | map of queues and global queue stay in step, and the arrival-ordered list gets the waiter at its end |
| PacketSession.PacketSessionDemux.RemoveById | crates/neoncore-kernel/src/packet_session.rs:65-78 | exactly that waiter leaves both structures, or nothing happens |
| PacketSession.PacketSessionDemux.DeliverTo | crates/neoncore-kernel/src/packet_session.rs:80-105 | the first waiter of the key in the arrival-ordered list is resolved and leaves; the result says whether there was one |
| PacketSession.PacketSessionDemux.DeliverOldest | crates/neoncore-kernel/src/packet_session.rs:107-138 | the head of the arrival-ordered list is resolved and leaves; the result says whether there was one |
| PacketSession.PacketSessionDemux.FailEveryone | crates/neoncore-kernel/src/packet_session.rs:140-156 | every waiter is refused with the same message, each key in its own order, and nothing is left |
| PacketSession.PacketSessionDemux.TakeAll | crates/neoncore-kernel/src/packet_session.rs:142-152 | both structures are emptied and each queue is handed over in order, whatever order the map yields |
| PacketSession.PacketSessionDemux.PendingCount | crates/neoncore-kernel/src/packet_session.rs:34-39 | the lengths of the queues add up to the length of the global queue |
| PacketSession.InStepWithout | crates/neoncore-kernel/src/packet_session.rs:65-78 | dropping an entry from one queue and from the global queue keeps both in step, with no empty queue |
| PacketSession.WaitersConserved | crates/neoncore-kernel/src/packet_session.rs:41-157 | in every reachable state each registered waiter is exactly one of waiting, resolved once, or removed |
| PacketSession.ResolvedInOrder | crates/neoncore-kernel/src/packet_session.rs:80-157 | without removals, the i-th resolution under a key is of the i-th waiter registered under it, however targeted and targetless replies are interleaved |
| PacketSession.RepliesMatchRequests | crates/neoncore-kernel/src/adapter/vless.rs:1827-1862 | with targeted replies only, the i-th accepted reply for a key reaches the i-th waiter registered for it, whatever order the targets come in |
| PacketSession.DeliveryInStep | crates/neoncore-kernel/src/packet_session.rs:94-98 | a targeted delivery keeps the structures in step for its key if and only if the id it takes is not registered there a second time |
| AnyTlsFrames.StepFrame | crates/neoncore-kernel/src/adapter/anytls.rs:921-938 | an encoded frame is decoded to itself whatever follows |
| AnyTlsFrames.TakenFrame | crates/neoncore-kernel/src/adapter/anytls.rs:921-938 | conversely, the bytes taken for a frame are its encoding |
| AnyTlsFrames.FramesRoundTrip | crates/neoncore-kernel/src/adapter/anytls.rs:921-998 | any frames, cut in any way, are decoded in order without residue |
| AnyTlsFrames.AppendFrame | crates/neoncore-kernel/src/adapter/anytls.rs:989-998 | a frame is appended as its encoding, or refused above 65535 bytes |
| AnyTlsPadding.PaddedWriter.constructor | crates/neoncore-kernel/src/adapter/anytls.rs:344-345 | the packet counter starts at 1 |
| AnyTlsPadding.PaddedWriter.WriteWithPadding | crates/neoncore-kernel/src/adapter/anytls.rs:940-987 | for every scheme the writes are the frames followed by the fills of the schedule, cut to exactly the scheduled lengths up to a refused waste frame; if the sizes fit, the fills are waste frames on stream 0; the packet counter advances modulo 2^32 |
| AnyTlsPadding.PaddedWriter.ScheduledWrite | crates/neoncore-kernel/src/adapter/anytls.rs:953-980 | one scheduled write sends a piece of the size, the rest filled up, or a waste frame alone; only a lone waste frame can be refused |
| AnyTlsPadding.WriteItem | crates/neoncore-kernel/src/adapter/anytls.rs:701-720 | one item puts its frames and the fills of its schedule on the wire, up to a refused waste frame |
| AnyTlsPadding.PlanFollowsScheme | crates/neoncore-kernel/src/adapter/anytls.rs:948-951 | the item queued as number `i` is padded by line `1 + i` of the scheme in force, and not at all from its stop on |
| AnyTlsPadding.WriteLoop | crates/neoncore-kernel/src/adapter/anytls.rs:692-728 | for every sequence of queued items and every padding scheme the bytes written are those of the pieces; if the sizes fit, these are the frames up to a close or an oversized frame, in queue order, with nothing but waste frames on stream 0 woven in |
| AnyTlsPadding.EverythingSent | crates/neoncore-kernel/src/adapter/anytls.rs:692-728 | all frames queued reach the wire if and only if none is too large and nothing is queued behind a close or a refused waste frame |
| AnyTlsPadding.LargeWriteIsLost | crates/neoncore-kernel/src/adapter/anytls.rs:656-671 | one write of 128 KiB, and everything behind it, is lost |
| AnyTlsPadding.FillInSync | crates/neoncore-kernel/src/adapter/anytls.rs:967-973 | a fill is read as waste frames only, and it leaves the reader in step if and only if its length divided by 65536 is a multiple of 7; in particular whenever it is at most 65535 |
| AnyTlsPadding.RunInStep | crates/neoncore-kernel/src/adapter/anytls.rs:940-987 | the reader holds nothing back after every piece of a run if and only if the length of every fill divided by 65536 is a multiple of 7, and it has then read the frames with waste frames put in |
| AnyTlsPadding.LoopReadInStep | crates/neoncore-kernel/src/adapter/anytls.rs:692-728 | the same for what the write loop writes for every queue and every scheme, together with when that is everything queued |
| AnyTlsPadding.LongFillSpoils | crates/neoncore-kernel/src/adapter/anytls.rs:967-973 | a size that leaves 65536 bytes to fill leaves the reader out of step |
| AnyTlsSession.SessionReader.HandleFrame | crates/neoncore-kernel/src/adapter/anytls.rs:761-802 | one frame changes the session as its transition function says |
| AnyTlsSession.SessionReader.CloseSession | crates/neoncore-kernel/src/adapter/anytls.rs:804-812 | the first close refuses everyone who waits for an acknowledgement and ends all streams; later ones do nothing |
| AnyTlsSession.SessionReader.Received | crates/neoncore-kernel/src/adapter/anytls.rs:730-759 | a read handles exactly the frames that one-shot decoding of the buffered and new bytes gives, and keeps the residue |
| AnyTlsSession.SessionReader.InsertStream | crates/neoncore-kernel/src/adapter/anytls.rs:517-518 | opening a stream inserts it and its waiter |
| AnyTlsSession.SessionReader.RemoveStream | crates/neoncore-kernel/src/adapter/anytls.rs:597-602 | dropping a stream removes it and its waiter |
| AnyTlsSession.SessionReader.CloseHere | crates/neoncore-kernel/src/adapter/anytls.rs:555-558 | on the reading side a local close sets the mark and nothing else; the close it also queues is the last item of the write loop |
| AnyTlsSession.StreamGetsItsPushes | crates/neoncore-kernel/src/adapter/anytls.rs:761-802 | over any interleaving of received frames with local opens, drops and closes, an open stream receives exactly its own pushes, in order, up to its end or drop or the alert that closes the session |
| AnyTlsSession.AnsweredOnce | crates/neoncore-kernel/src/adapter/anytls.rs:768-812 | over any such interleaving, whoever waits for an acknowledgement is answered at most once, by the first acknowledgement for the stream or the first alert, not at all once the stream is dropped, and waits on otherwise |
| AnyTlsSession.HeartbeatsAnswered | crates/neoncore-kernel/src/adapter/anytls.rs:791-797 | every heartbeat request queues an answer, in order |
| AnyTlsSession.OnlyFrames | crates/neoncore-kernel/src/adapter/anytls.rs:730-759 | what the read loop does for its frames is that run without local events |
| AnyTlsSession.WasteIsInvisible | crates/neoncore-kernel/src/adapter/anytls.rs:761-802 | frames with waste woven in are handled as without it |
| AnyTlsSession.SessionTransparent | crates/neoncore-kernel/src/adapter/anytls.rs:692-802 | what the write loop put on the wire, cut in any way, is decoded without residue as the frames sent, waste aside, and however their arrival is interleaved with local events each open stream gets exactly the pushes sent for it |
| AnyTlsSession.StreamReader.PollRead | crates/neoncore-kernel/src/adapter/anytls.rs:634-652 | with room, the bytes read are the next unread ones, as many as the buffer and their message allow, and none are lost; without room each queued message replaces the one before, and nothing is lost if and only if everything in front of the last queued message is empty |
| AnyTlsSession.StreamReader.ReadCurrent | crates/neoncore-kernel/src/adapter/anytls.rs:635-643 | the bytes taken and the bytes still unread together are what was unread |
| AnyTlsPool.AnyTlsClient.constructor | crates/neoncore-kernel/src/adapter/anytls.rs:195-199 | an empty pool |
| AnyTlsPool.AnyTlsClient.TakeIdle | crates/neoncore-kernel/src/adapter/anytls.rs:291-299 | the youngest open session passes to the stream being opened, closed ones behind it are dropped, and none is returned only if all were closed |
| AnyTlsPool.AnyTlsClient.CreateSession | crates/neoncore-kernel/src/adapter/anytls.rs:328-355 | a new session belongs to the stream being opened on it |
| AnyTlsPool.AnyTlsClient.Opened | crates/neoncore-kernel/src/adapter/anytls.rs:213-222 | the stream holds the session, or the session is dropped |
| AnyTlsPool.AnyTlsClient.OpenStream | crates/neoncore-kernel/src/adapter/anytls.rs:207-223 | when nothing comes between its steps, the stream gets the youngest session that survives clean-up, or a new one if none does; the steps are the methods above, each of which keeps ownership unique under any interleaving |
| AnyTlsPool.AnyTlsClient.DropStream | crates/neoncore-kernel/src/adapter/anytls.rs:592-609 | the session passes from its stream to its pending release |
| AnyTlsPool.AnyTlsClient.Release | crates/neoncore-kernel/src/adapter/anytls.rs:301-310 | the session goes to the end of the pool unless it is closed; it was not idle before |
| AnyTlsPool.AnyTlsClient.CloseSession | crates/neoncore-kernel/src/adapter/anytls.rs:555-558 | closing a session leaves ownership as it is |
| AnyTlsPool.AnyTlsClient.CleanupIdle | crates/neoncore-kernel/src/adapter/anytls.rs:312-326 | the loop keeps exactly the entries its specification keeps, at least the configured minimum if that many are open, and closes exactly the others |
| AnyTlsPool.StayingProperties | crates/neoncore-kernel/src/adapter/anytls.rs:312-326 | clean-up keeps order, keeps no closed session, and keeps the configured minimum or every open session |
| AnyTlsPool.StayExactly | crates/neoncore-kernel/src/adapter/anytls.rs:312-326 | an entry stays if and only if its session is open and it has been idle for less than the timeout or fewer than the configured minimum of older ones stay |
| AnyTlsPool.UnexpiredStay | crates/neoncore-kernel/src/adapter/anytls.rs:317-323 | clean-up removes no open session that has not expired |
| AnyTlsPool.StayingIfUnexpired | crates/neoncore-kernel/src/adapter/anytls.rs:317-323 | with nothing expired, exactly the closed sessions go |
| ShadowTls.RecordIncremental | crates/neoncore-kernel/src/adapter/shadowsocks/transport.rs:3062-3108 | no record is opened before it is complete and a verdict does not change |
| ShadowTls.RecordLayer.NewV2 | crates/neoncore-kernel/src/adapter/shadowsocks/transport.rs:2340-2350 | a version-2 layer owes its authentication tag |
| ShadowTls.RecordLayer.NewV3 | crates/neoncore-kernel/src/adapter/shadowsocks/transport.rs:2340-2350 | a version-3 layer starts both transcripts where the handshake left them |
| ShadowTls.RecordLayer.EncodeRecords | crates/neoncore-kernel/src/adapter/shadowsocks/transport.rs:3012-3041 | one write becomes the records its specification says and the sender moves on; an empty write becomes one record without a MAC |
| ShadowTls.RecordLayer.EncodeNonEmpty | crates/neoncore-kernel/src/adapter/shadowsocks/transport.rs:3024-3040 | the offset loop cuts the payload into records of the largest size, the tag counted in the first |
| ShadowTls.RecordLayer.DrainRecords | crates/neoncore-kernel/src/adapter/shadowsocks/transport.rs:3062-3108 | opening records in a loop is draining the raw buffer |
| ShadowTls.RecordLayer.OpenRecord | crates/neoncore-kernel/src/adapter/shadowsocks/transport.rs:3078-3124 | one complete record is skipped, accepted or refused as the decoder step says; even a refused record is absorbed, and it ends the skipping of handshake records |
| ShadowTls.RecordLayer.VerifyApplicationData | crates/neoncore-kernel/src/adapter/shadowsocks/transport.rs:3110-3124 | whatever the answer, a record with room for a tag is absorbed, and with `update` the expected tag behind it; the answer is whether bytes 5 to 9 are the MAC of the transcript and the payload |
| ShadowTls.StepMacRecord | crates/neoncore-kernel/src/adapter/shadowsocks/transport.rs:3052-3060 | a record whose tag continues the transcript is accepted and extends the verifier exactly as the sender was extended |
| ShadowTls.V3TagsChained | crates/neoncore-kernel/src/adapter/shadowsocks/transport.rs:3012-3060 | for every list of non-empty writes, record by record: bytes 5 to 9 are the MAC of the start, the payloads and tags of all records before it, read off the wire, and its own payload, which stands behind them; the sender ends on that transcript |
| ShadowTls.AuthenticRead | crates/neoncore-kernel/src/adapter/shadowsocks/transport.rs:3062-3124 | records whose tags are chained in this way are accepted in front of anything, yield their payloads, and extend the transcript by what is on the wire |
| ShadowTls.OnlyAuthentic | crates/neoncore-kernel/src/adapter/shadowsocks/transport.rs:3062-3124 | conversely, of any bytes only such records are taken |
| ShadowTls.V3Synchronised | crates/neoncore-kernel/src/adapter/shadowsocks/transport.rs:3012-3129 | for every list of writes, all records verify, the output is exactly what was written and both ends hold the same transcript, if and only if no write was empty |
| ShadowTls.V3InStepAfterEachRecord | crates/neoncore-kernel/src/adapter/shadowsocks/transport.rs:3012-3129 | after every record of a list of writes, also within a write, the receiver has output the payloads so far, holds nothing back and is on the transcript of the sender after that record |
| ShadowTls.V3RoundTrip | crates/neoncore-kernel/src/adapter/shadowsocks/transport.rs:3012-3129 | the same when the wire is cut in any way |
| ShadowTls.SkippingLosesNothing | crates/neoncore-kernel/src/adapter/shadowsocks/transport.rs:3083-3096 | while handshake records may still be skipped, nothing is lost if and only if the first tag differs from the handshake MAC over the same bytes |
| ShadowTls.V2TagThenPayload | crates/neoncore-kernel/src/adapter/shadowsocks/transport.rs:3012-3050 | in version 2 the output is the eight-byte tag once, then exactly what was written, empty writes included |
| ShadowTls.V2RoundTrip | crates/neoncore-kernel/src/adapter/shadowsocks/transport.rs:3012-3108 | the same in version 2 when the wire is cut in any way |
| TokenBucket.AllowedFits | crates/neoncore-kernel/src/adapter/shadowsocks/transport.rs:419 | the offer to the inner stream stays inside the caller's buffer if and only if the buffer is not empty |
| TokenBucket.AllowedIsLargest | crates/neoncore-kernel/src/adapter/shadowsocks/transport.rs:419 | the offer is the largest number of bytes within the write, the tokens and 64 KiB |
| TokenBucket.RateLimitedStream.constructor | crates/neoncore-kernel/src/adapter/shadowsocks/transport.rs:367-376 | a full bucket and no sleep |
| TokenBucket.RateLimitedStream.PollWrite | crates/neoncore-kernel/src/adapter/shadowsocks/transport.rs:399-423 | what a poll returns, offers, charges and sleeps for is determined case by case; tokens stay within 0 and the rate, no byte passes without a token, and the loop turns at most twice |
| TokenBucket.RateLimitedStream.Offer | crates/neoncore-kernel/src/adapter/shadowsocks/transport.rs:419-422 | an inner stream that takes everything takes all of the write, 64 KiB, or all but a fraction of the tokens |
| TokenBucket.RateLimitedStream.AwaitToken | crates/neoncore-kernel/src/adapter/shadowsocks/transport.rs:404-418 | the loop ends with a whole token or an unfinished sleep; behind a finished sleep the next refill always brings a whole token |
| TokenBucket.RateLimitedStream.AwaitTurn | crates/neoncore-kernel/src/adapter/shadowsocks/transport.rs:405-417 | one turn refills and either finds a token, or sleeps until the deadline already set or newly due |
| TokenBucket.RateLimitedStream.Refill | crates/neoncore-kernel/src/adapter/shadowsocks/transport.rs:378-383 | a refill never exceeds the rate |
| TokenBucket.RunIsPaid | crates/neoncore-kernel/src/adapter/shadowsocks/transport.rs:399-423 | between any two polls of a run, bytes passed and tokens left are covered by the tokens at the start and the rate times the time |
| TokenBucket.WindowBound | crates/neoncore-kernel/src/adapter/shadowsocks/transport.rs:399-423 | in any window up to a poll the bytes passed never exceed the tokens at its start plus rate times length |
| ChunkedBody.ByteStream.ReadExact | crates/neoncore-kernel/src/adapter/shadowsocks/transport.rs:1740-1741 | reads exactly the bytes or fails |
| ChunkedBody.ByteStream.ReadLine | crates/neoncore-kernel/src/adapter/shadowsocks/transport.rs:1766-1780 | reads up to the first line feed within the limit or fails |
| ChunkedBody.ByteStream.DrainExact | crates/neoncore-kernel/src/adapter/shadowsocks/transport.rs:1695-1709 | succeeds exactly when the size is within the limit and the bytes are there, and then stops behind them |
| ChunkedBody.ByteStream.DrainChunkedBody | crates/neoncore-kernel/src/adapter/shadowsocks/transport.rs:1711-1746 | on every finite input it ends, succeeds exactly when a body can be read, and stops right behind it |
| ChunkedBody.ByteStream.DrainTurn | crates/neoncore-kernel/src/adapter/shadowsocks/transport.rs:1717-1744 | one size line and what it announces |
| ChunkedBody.ByteStream.DrainTrailers | crates/neoncore-kernel/src/adapter/shadowsocks/transport.rs:1728-1733 | lines are skipped up to the blank one |
| ChunkedBody.BodyDrained | crates/neoncore-kernel/src/adapter/shadowsocks/transport.rs:1711-1746 | a well-formed body is drained up to its last byte if and only if its chunks total at most 1 MiB |
| ChunkedBody.DrainedBody | crates/neoncore-kernel/src/adapter/shadowsocks/transport.rs:1711-1746 | conversely, whatever is drained is a well-formed body within the limit that ends where draining stopped |
| ChunkedBody.HexFacts | crates/neoncore-kernel/src/adapter/shadowsocks/transport.rs:615 | the hexadecimal form of a size is read back as that size |
| ChunkSize.SizeExactly | crates/neoncore-kernel/src/adapter/shadowsocks/transport.rs:1718-1726 | a size line is read as a size if and only if it is white space, perhaps a plus sign, hexadecimal digits of either case for a number below 2^64, white space, and anything behind a semicolon |
| ChunkedBody.WrittenBodyDrained | crates/neoncore-kernel/src/adapter/shadowsocks/transport.rs:606-626 | what the upload side writes for any non-empty chunks is drained exactly, up to the first byte behind it, if and only if the chunks total at most 1 MiB |
| SeedCfb.CfbInverse | crates/neoncore-kernel/src/adapter/shadowsocks/legacy.rs:229-270 | block-level CFB decryption inverts encryption (section 6.3 of NIST SP 800-38A) |
| SeedCfb.SeedCfbCipher.constructor | crates/neoncore-kernel/src/adapter/shadowsocks/legacy.rs:238-252 | the IV waits in a full feedback register |
| SeedCfb.SeedCfbCipher.ApplyByte | crates/neoncore-kernel/src/adapter/shadowsocks/legacy.rs:255-268 | one byte in place is one step of the byte machine |
| SeedCfb.SeedCfbCipher.NextBlock | crates/neoncore-kernel/src/adapter/shadowsocks/legacy.rs:256-262 | a new keystream block is the cipher of the full register |
| SeedCfb.SeedCfbCipher.MixByte | crates/neoncore-kernel/src/adapter/shadowsocks/legacy.rs:263-267 | the ciphertext byte, not the plaintext byte, is fed back in either direction |
| SeedCfb.SeedCfbCipher.Apply | crates/neoncore-kernel/src/adapter/shadowsocks/legacy.rs:254-269 | the loop rewrites exactly its part of the buffer as the byte machine does |
| SeedCfb.RunIsCfb | crates/neoncore-kernel/src/adapter/shadowsocks/legacy.rs:254-269 | the byte machine computes block-level CFB, for every cipher, IV and data |
| SeedCfb.ChunksAreCfb | crates/neoncore-kernel/src/adapter/shadowsocks/legacy.rs:254-269 | so it does chunk by chunk |
| SeedCfb.StreamRoundTrip | crates/neoncore-kernel/src/adapter/shadowsocks/legacy.rs:254-269 | decrypting with one chunking what was encrypted with another returns the plaintext |
| SeedCfb.EncryptUdpBody | crates/neoncore-kernel/src/adapter/shadowsocks/legacy.rs:316-329 | the packet is the IV followed by the encrypted body |
| SeedCfb.DecryptUdpBody | crates/neoncore-kernel/src/adapter/shadowsocks/legacy.rs:331-344 | a packet shorter than an IV is refused; otherwise the body is decrypted in place |
| SeedCfb.UdpRoundTrip | crates/neoncore-kernel/src/adapter/shadowsocks/legacy.rs:316-344 | decrypting an encrypted packet returns the body |
| PluginOptions.SplitPluginOptions | crates/neoncore-kernel/src/adapter/shadowsocks/config.rs:1188-1213 | the loop cuts at exactly the unescaped semicolons and keeps escapes, a dangling one included |
| PluginOptions.SplitPluginOptionPair | crates/neoncore-kernel/src/adapter/shadowsocks/config.rs:1215-1247 | the loop cuts at the first unescaped equals sign, or finds none |
| PluginOptions.PairExactly | crates/neoncore-kernel/src/adapter/shadowsocks/config.rs:1215-1247 | an item has a pair if and only if it is that key, an equals sign and that value, with no unescaped equals sign in the key |
| PluginOptions.UnescapePluginOption | crates/neoncore-kernel/src/adapter/shadowsocks/config.rs:1249-1266 | the loop drops each escape and keeps what it escapes; a dangling escape stays |
| PluginOptions.TrimExactly | crates/neoncore-kernel/src/adapter/shadowsocks/config.rs:1180-1184 | white space in front and behind is trimmed and nothing else |
| PluginOptions.WhiteByNumber | crates/neoncore-kernel/src/adapter/shadowsocks/config.rs:1180-1184 | which characters are trimmed, by number |
| PluginOptions.LowerAt | crates/neoncore-kernel/src/adapter/shadowsocks/config.rs:1180 | the letters A to Z become those 32 codes above, character by character |
| PluginOptions.AddItem | crates/neoncore-kernel/src/adapter/shadowsocks/config.rs:1176-1184 | one item adds its pair, or nothing without an equals sign or a key |
| PluginOptions.ParsePluginOptions | crates/neoncore-kernel/src/adapter/shadowsocks/config.rs:1174-1187 | the three passes together read the map that later items override |
| PluginOptions.JoinUndoesSplit | crates/neoncore-kernel/src/adapter/shadowsocks/config.rs:1188-1213 | for every string, splitting gives items of which only the last may dangle, and joining them gives the string back |
| PluginOptions.SplitUndoesJoin | crates/neoncore-kernel/src/adapter/shadowsocks/config.rs:896-918 | splitting a joined list of such items gives the list back |
| PluginOptions.SanitizePreservesMeaning | crates/neoncore-kernel/src/adapter/shadowsocks/config.rs:896-918 | for every option string, however malformed, the sanitised string parses to the original options without the launcher keys |
| PluginOptions.SanitizeSip003Options | crates/neoncore-kernel/src/adapter/shadowsocks/config.rs:896-917 | the filter and the join as the code writes them |
| PluginOptions.ItemStays | crates/neoncore-kernel/src/adapter/shadowsocks/config.rs:899-914 | an item stays unless its key, unescaped, trimmed and in lower case, is one of the seven launcher keys |
| PluginOptions.SanitizeTwice | crates/neoncore-kernel/src/adapter/shadowsocks/config.rs:896-918 | sanitising twice is sanitising once |
| PluginOptions.EscapeIsPerCharacter | apps/macos/NeonCoreMacApp/App.swift:829-834 | the three replacements in sequence are one escape in front of each special character |
| PluginOptions.UnescapeUndoesEscape | apps/macos/NeonCoreMacApp/App.swift:829-834 | the parser's unescaping undoes the printer's escaping for every text |
| PluginOptions.LineReadsBack | apps/macos/NeonCoreMacApp/App.swift:718-722 | a printed option holds no bare semicolon and splits at the equals sign between its escaped key and value |
| PluginOptions.AppendCall | apps/macos/NeonCoreMacApp/App.swift:718-732 | one call of the printer adds an escaped option, or a flag, or nothing for a blank value or a switch that is off |
| PluginOptions.PluginOptionsValue | apps/macos/NeonCoreMacApp/App.swift:714-792 | the calls, the text typed in and the join print exactly those options |
| PluginOptions.PrintedOptionsParse | crates/neoncore-kernel/src/adapter/shadowsocks/config.rs:1174-1187 | for every list of calls and every text typed in, the printed string parses to the meaning of the calls (keys trimmed and in lower case, blanks and flags left out, the last one winning), overridden by what the text alone parses to |
| PluginOptions.NormalPairsReadBack | crates/neoncore-kernel/src/adapter/shadowsocks/config.rs:1174-1187 | with distinct normalised keys and trimmed values the parsed map holds exactly the printed pairs |
| VerifySimple.Adler32 | crates/neoncore-kernel/src/adapter/shadowsocks/ssr.rs:1095-1104 | the loop that reduces after every byte equals the reduced sums of section 2.2 of RFC 1950, and no intermediate value leaves a u32 |
| VerifySimple.StepPack | crates/neoncore-kernel/src/adapter/shadowsocks/ssr.rs:316-323 | a packed payload is taken whole and opened to itself whatever follows |
| VerifySimple.OnlyPacksAccepted | crates/neoncore-kernel/src/adapter/shadowsocks/ssr.rs:276-304 | conversely, only what `pack_data` writes for a payload is accepted as that payload |
| VerifySimple.LittleEndian | crates/neoncore-kernel/src/adapter/shadowsocks/ssr.rs:316-323 | the checksum is written low byte first, and read so |
| VerifySimple.VerifySimpleCodec.constructor | crates/neoncore-kernel/src/adapter/shadowsocks/ssr.rs:254-259 | an empty buffer, not in raw mode |
| VerifySimple.VerifySimpleCodec.PackData | crates/neoncore-kernel/src/adapter/shadowsocks/ssr.rs:316-323 | length, payload and the checksum of both are appended |
| VerifySimple.VerifySimpleCodec.Encode | crates/neoncore-kernel/src/adapter/shadowsocks/ssr.rs:261-268 | a payload is packed in units of 4096 bytes |
| VerifySimple.EncodedLen | crates/neoncore-kernel/src/adapter/shadowsocks/ssr.rs:261-268 | six bytes more for every 4096 bytes begun |
| VerifySimple.VerifySimpleCodec.Decode | crates/neoncore-kernel/src/adapter/shadowsocks/ssr.rs:270-306 | a chunk drains the buffered bytes and itself; the first failure is remembered and from then on chunks pass as they are |
| VerifySimple.VerifySimpleRoundTrip | crates/neoncore-kernel/src/adapter/shadowsocks/ssr.rs:253-323 | payloads encoded one by one and cut in any way are decoded to their concatenation without residue or failure, so raw mode is never entered |

## Left out

- Sockets, TLS, QUIC, H2 and H3 handshakes, DNS, process spawning, task scheduling, wakers, timers and logging: time and the outcome of a poll are parameters.
- Cryptographic primitives: the ShadowTLS MAC is an arbitrary function of the absorbed bytes and the SEED block cipher an arbitrary function on blocks; no secrecy or authenticity is claimed.
- I/O errors in the middle of a write or of a loop, which end the connection in the source, unless a method names them as an outcome.
- Resumption after a pending write in `ShadowTlsStream`, the legacy crypto stream, `RandomHeadStream` and `TlsReadState`: partial work is lost or repeated there, so only the codecs are modelled.
- VisionUnpadding: chunks are sequences, so which of them borrow the input and which own a copy is not part of this model.
- VisionUplink: the ServerHello arm of `filter_tls` and the fields only it sets (`is_tls12_or_above`, `is_tls13`, `remaining_server_hello`) cannot be reached, because a shorter prefix is compared first; `downlink` and `direct_copy` are never read.
- VisionTransparency.Uplink: the request in front of the uplink, the response header in front of the downlink and the switch of a TLS connection to its raw socket are not part of this model.
- VisionTransparency.OutputExactly: the condition is for the output at every moment; a run whose output is wrong in between and right again at its end is not characterised.
- Xudp.DecodedTarget: the model of a target keeps the address type it was decoded from, so a name that reads as an address literal stays a name; the source decodes it to text and would encode that text as an address.
- VlessMux.MuxWriter.Send: the write itself cannot fail here; its failure is an outcome of `MuxWorker.Worker.SendPacket`, where the bytes count as given to the stream.
- MuxWorker.Worker.IssueId: request ids are unbounded instead of wrapping at 2^64.
- MuxWorker.Worker.RegisterRequest: the key of a target is an arbitrary function of it.
- MuxWorker.Worker.SendPacket: the steps without interference; overlapping calls are the steps `IssueId`, `RegisterRequest`, `WriteRequest`, `GiveUp` and `Close`, each keeping `Valid`, in any order.
- MuxWorker.Worker.Close: the mark and the refusals are one step.
- MuxWorker.EveryReplyArrives: for runs without timeouts and failures, and for a peer that encodes its replies as this side encodes requests.
- GrpcHunk: a compressed message stops the decoder for good, as in the source; hunks are received as sequences, and the shift by index times 7 with its `|=` is written as an addition of disjoint bits.
- RecordLimited: the waker call behind a yield and the write half, which passes through.
- PacketSession: the mutex (each method is one atomic step), poisoned locks and receivers that were dropped; `remove` is `remove_by_id` on a waiter's own key and id.
- AnyTlsPadding.WriteLoop: the raw authentication preamble, which bypasses padding, and the parsing of padding schemes with their random sizes.
- AnyTlsSession.StreamReader.PollRead: polling for the acknowledgement of the stream, which comes before the modelled part and can return an error once.
- AnyTlsSession.StreamGetsItsPushes: stream ids are not reused, where the source's counter wraps at 2^32; and inserting or removing a stream and its waiter is one step.
- AnyTlsSession: the update of the padding scheme by a received frame (the scheme is a parameter of the write loop) and UDP over TCP.
- AnyTlsPool.AnyTlsClient.CreateSession: connecting is not part of this model; every session has an identity that is never reused.
- ShadowTls: handshake records, the client hello patch and the capture of the server hello; the layer starts from the transcripts the handshake leaves.
- ChunkedBody: header lines and the two other ways of draining a body.
- TokenBucket: floats are reals, so rounding is not modelled; the read half, which passes through.
- SeedCfb: the errors for a wrong key or IV length, and all other legacy ciphers.
- PluginOptions.PluginOptionsValue: the table of calls per plugin is a parameter; both languages trim the white space of the Unicode property of that name, and Swift's comparison of canonically equivalent characters is not modelled.
- VerifySimple: the packet forms, which pass through, and the `auth_*` codecs, whose encoder and decoder are not an inverse pair.
- Easy parts that would only add length: IP, TCP and UDP headers, routing rules, SOCKS headers, QUIC varints, configuration parsing, cipher tables, the user interface and the daemon.
