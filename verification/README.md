# Verified model of the accelerometer pipeline

A C client serialises accelerometer samples and sends them over its own WebSocket code. A C++ server
decodes the frames, validates the packets, buffers them in a ring, writes them to a CSV file and shows
them on a web dashboard. This project models that path in Dafny and proves what it keeps.

Check everything with `dafny verify dfyconfig.toml`.

## What is modelled

- **Wire.** `Bytes`, `Sockets`, `Frames`, `WsClient`, `WsSubscriber`, `WebFrames`, `Stream`. A socket is a
  class; every `recv` and `send` may move any amount the kernel likes, and a connection may break after any
  number of bytes. Frames are specified once (`Frames.Wire`), the client's encoder, the server's two decoders
  and the dashboard's encoder are proved against that specification.
- **Handshake and digests.** `Sha1`, `Base64`, `Handshake`. The array programs refine functional definitions
  written from RFC 3174 and RFC 4648; both sides of the opening handshake work on text lines.
- **Storage.** `RingBuffers`, `BlockingDrain`, `StorageProtocol`, `BufferSizing`, `Csv`, `Formatter`, `Storage`,
  `Directories`. The threads are a state machine over atomic steps with ghost histories; the objects are classes.
- **Printers and parsers.** `Text`, `Packets`, `Validator` for packets; `ConfLines`, `ConfBuffer`, `ConfTable`,
  `ConfDump` for the INI parser, down to the in-place NUL writes on its line buffer.
- **Dashboard clients.** `WebClients`: accept loop, handlers, broadcaster and `stop` as steps over an operating
  system that may reuse a closed descriptor at once.
- **Statistics.** `Stats`: the running fields against the history of samples.
- **Wiring.** `Server` is the packet callback with the objects it drives, `Pipeline` composes client, wire,
  validator, storage threads and file.

Clocks, the kernel's choices, mask seeds and thread schedules are parameters or nondeterministic
choices, so each theorem covers all of them. So are write failures, lost flushes included; the theorems that say what
a file holds after calls that returned true (`Formatter.FileContents`, `Storage.WholeRun`, `Pipeline.EndToEnd`)
name that as their assumption, and `Storage.RunWithFailures` and `Formatter.ContentWithFailures` do without it.

## What the code does not do

The model follows the code. These promises hold only under the stated condition, which is proved exact
unless the entry says otherwise.

- The dashboard's Pong is malformed for a Ping over 125 bytes: the length is cut to seven bits and the whole
  payload follows (`WebFrames.DashboardPongIsOneFrame`, `WebFrames.DecodersAgree`). The subscriber stays silent instead.
- After a Pong payload cut short by the connection, the subscriber reports success and the dashboard failure
  (`WebFrames.DecodersPartOnCutPong`).
- Drains exactly 5 * capacity ms apart can drop a packet; strictly less is needed (`BufferSizing.SafeGap`).
- A CSV file holding the header without its newline gets the first row glued to it (`Csv.HeaderLineKept`), and the
  next `write_header` deletes the rows; so it does, whatever the file held, when the separator contains a newline
  (`Formatter.FileContents`, `Csv.SecondHeaderDeletesRows`).
- The client reads a header line longer than its buffer in pieces, so an accept value of 2026 characters or more can
  be accepted although it is wrong (`Handshake.RejectionLimit`, `Handshake.LongValueCanBeAccepted`).
- `write_header` and `write_packets` test the stream before it is closed and never flush it, so they can return true,
  and packets count as written, although the text never reaches a full disk. The file has it if and only if the flush
  on closing succeeds (`Formatter.FlushDecides`, `Formatter.RowsCanBeLost`, `Formatter.HeaderCanBeLost`). A row cut
  short glues the next batch to it (`Formatter.CutRowsSplit`).
- UINT32_MAX doubles as "no packet yet", so a loss right after it is not counted, and gaps of 10000 and more
  are not either (`Stats.LossConservation`).
- The maximum latency starts at 0, so it is the true maximum only when some latency is not negative
  (`Stats.MaxReportedIsTrue`). The comment there names RFC 3550, but the jitter is a plain mean.
- `conf_dump` renames the empty section, and values with quotes or comments do not survive a reload
  (`ConfDump.RoundTrip`).
- A packet pushed after the final drain of `StorageManager::stop` stays in the buffer; the order in `main` rules
  it out (`StorageProtocol.LateIsLeft`, `StorageProtocol.LatePushStays`, and `StorageProtocol.NothingLeftBehind` for that order).
- `WebInterface::stop` can sleep through the last handler's exit, because the count is lowered and the condition
  notified without the mutex; its three-second timeout ends the wait. It does so exactly when the last exit is over
  before it falls asleep (`WebClients.OversleptExactly`, `WebClients.LastExitWakes`).
- When `WebInterface::stop` returns on a count of 0, a handler may still be about to notify the condition variable,
  and nothing else (`WebClients.HandlerCanOutliveStop`, `WebClients.CleanStop`).
- `ensure_directory_exists` also succeeds when the path is an existing file (`Directories.OnAFile`, and
  `Directories.EnsureDirectoryExists` for when).
- The text of a packet can exceed the 256-byte buffer, so that it is not sent, from axes of 57 integer digits on
  (`Validator.FitsBuffer`, `Validator.FiftySevenDigitsOverflow`).

## Model

| member | source | states |
|---|---|---|
| Pipeline.EndToEnd | server/src/main.cpp:249-326 | From the first byte of a connection that may break anywhere to the last row of the file: the server answers a whole request with a response the client accepts and gets the first packets, all on a whole connection; when every formatter call returned true, the file gains one row for each of them that was not refused, in order of measurement with six decimals kept, if and only if all streams were flushed, and the missing packets are the dropped ones; for every mask sequence, every interleaving of the storage threads and whatever the file held before |
| Pipeline.PayloadsAreReceived | server/src/main.cpp:249-285 | The texts of printable, in-range packets come out of the validator as the same packets, in order |
| Pipeline.ServeConnection | server/src/transport/websocket/ws_subscriber.cpp:185-206 | Handshake and frame loop on one connection: the frames are decoded from exactly what the handshake left unread |
| Pipeline.RequestThenFrames | server/src/transport/websocket/ws_subscriber.cpp:185-206 | For every request of the client with byte host and path, the messages delivered are those of the frames that follow it |
| Pipeline.ServedOnPrefix | server/src/transport/websocket/ws_subscriber.cpp:185-206 | However early a connection breaks, in its handshake or its frames, a beginning of the messages is delivered and nothing else |
| Pipeline.AcceptedIsPart | server/src/storage/storage_manager.cpp:153-160 | In every run of the storage threads the accepted packets are the pushed ones in order without the refused ones, and the counters say how many those are |
| Server.Server.OnMessage | server/src/main.cpp:252-285 | A rejected payload changes neither statistics nor storage; an accepted packet is recorded, then buffered or counted as dropped; received = dropped + buffered + written + failed is kept |
| Server.Server.Flush | server/src/storage/storage_manager.cpp:176-188 | A round of the writer empties the buffer and keeps the same balance: its packets count as written exactly when write_packets returned true, otherwise as failed |
| Server.AcceptedFits | server/src/misc/packet_validator.cpp:247-305 | Whatever parse accepts has a 64-bit timestamp, a 32-bit sequence number and axes within the limit |
| Pipeline.CleanRun | server/src/storage/storage_manager.cpp:142-188 | For every sequence of packets up to the capacity a run exists that refuses none of them, writes them all and stops in the order of main |
| Sockets.RecvExact | client/src/network/net_platform.c:71-82 | For every split by short reads: succeeds if and only if enough data comes before the end, fills the buffer with exactly the next len bytes and leaves the rest |
| Sockets.SendExact | client/src/network/net_platform.c:84-96 | For every split by short writes: the data goes out whole, or exactly the prefix the connection still carries and false |
| Bytes.MaskTwice | server/src/transport/websocket/ws_subscriber.cpp:335-337 | Masking twice with one key gives the data back |
| Bytes.BigEndianRoundTrip | server/src/transport/websocket/ws_subscriber.cpp:303-314 | The accumulated length bytes are the number that was laid out |
| Frames.HeadRoundTrip | server/src/transport/websocket/ws_subscriber.cpp:290-320 | Every header, in each of the three length forms, masked or not, is read back exactly, whatever follows |
| Frames.SubscriberReadsWire | server/src/transport/websocket/ws_subscriber.cpp:290-362 | The decoder turns any complete frame into its unmasked payload, its Pong or the end, leaving exactly the following bytes |
| Frames.DashboardReadsWire | server/src/webif/web_interface.cpp:445-495 | The same for the dashboard: every complete frame other than Close is skipped exactly, and a Ping answered |
| WsClient.Client.NextMask | client/src/transport/websocket/ws_client.c:253-258 | The four key bytes, read back most significant first, are the next state of the generator, and only the zero state gives the key that masks nothing |
| WsClient.Client.PutLength64 | client/src/transport/websocket/ws_client.c:272-275 | The downward shifting loop lays out the big-endian length and keeps the first two bytes |
| WsClient.Client.BuildHeader | client/src/transport/websocket/ws_client.c:260-280 | The header array holds the header section 5.2 of RFC 6455 prescribes, in the shortest length form |
| WsClient.Client.MaskChunk | client/src/transport/websocket/ws_client.c:288-291 | A chunk is the matching slice of the payload masked as a whole |
| WsClient.Client.SendMasked | client/src/transport/websocket/ws_client.c:285-296 | Masking in chunks of 4096 puts the same bytes on the wire as masking the whole payload, up to where the connection breaks |
| WsClient.Client.SendText | client/src/transport/websocket/ws_client.c:247-297 | Exactly one well-formed masked text frame goes out, or the prefix of it the connection carries and an error |
| WsClient.Client.Close | client/src/transport/websocket/ws_client.c:299-329 | The eight bytes laid out by hand go out as a Close frame with status 1000 |
| WsClient.CloseBytesAreAFrame | client/src/transport/websocket/ws_client.c:305-318 | Those eight bytes are a masked Close frame as the frame format defines it |
| WsSubscriber.ReadLength | server/src/transport/websocket/ws_subscriber.cpp:303-314 | The extended length is the big-endian value of exactly the next k bytes |
| WsSubscriber.Unmask | server/src/transport/websocket/ws_subscriber.cpp:355-357 | The in-place loop yields the whole payload masked with the key |
| WsSubscriber.ReadRestOfHead | server/src/transport/websocket/ws_subscriber.cpp:297-320 | For every split by the kernel the header is the one the byte stream holds, and the reader stands right after it |
| WsSubscriber.SendPong | server/src/transport/websocket/ws_subscriber.cpp:364-378 | Payloads up to 125 bytes get one Pong, longer ones none |
| WsSubscriber.ReadFrame | server/src/transport/websocket/ws_subscriber.cpp:290-362 | On every input and split: refines the step function on the byte stream in result, payload, reply and unread rest |
| Stream.ServeFrames | server/src/transport/websocket/ws_subscriber.cpp:193-204 | The frame loop calls back with exactly the messages of the byte stream |
| Stream.SendAll | client/src/main.c:310-361 | The client loop puts the frames of its payloads and a Close on the wire, with the generator running on, cut where the connection breaks |
| Stream.ConversationRoundTrip | client/src/transport/websocket/ws_client.c:247-329 | For all payloads, masks and trailing bytes, the server delivers exactly the non-empty payloads in order and ends at the Close frame |
| Stream.SubscriberOnPrefix | server/src/transport/websocket/ws_subscriber.cpp:290-362 | On a cut stream the decoder stops, ignores a cut Pong, or acts as on the whole stream |
| Stream.DeliverOnPrefix | server/src/transport/websocket/ws_subscriber.cpp:193-204 | However early the connection breaks, a prefix of the messages is delivered and nothing else |
| Stream.Exchange | server/src/transport/websocket/ws_subscriber.cpp:193-204 | Client, breakable connection and server together: a prefix of the sent messages arrives, and all of them when the connection carries everything |
| WebFrames.DiscardFrame | server/src/webif/web_interface.cpp:445-495 | Refines the dashboard step function for every input and split by the kernel |
| WebFrames.EncodeFrame | server/src/webif/web_interface.cpp:500-519 | A broadcast is one unmasked text frame in the shortest length form |
| WebFrames.ShortestFormIsShortest | server/src/webif/web_interface.cpp:506-516 | No form that fits a length is shorter than the chosen one, and none other is as short |
| WebFrames.EncodedFrameDecodes | server/src/webif/web_interface.cpp:500-519 | Every broadcast frame decodes to its payload, leaving what follows |
| WebFrames.DecodersAgree | server/src/webif/web_interface.cpp:445-495 | On complete frames other than Close both decoders consume the same bytes; their replies agree if and only if the frame is no Ping or has at most 125 bytes, and are then one Pong with the payload |
| WebFrames.DashboardPongIsOneFrame | server/src/webif/web_interface.cpp:485-492 | The dashboard's Pong reads back as the payload if and only if that has at most 125 bytes |
| WebFrames.DecodersPartOnCutPong | server/src/transport/websocket/ws_subscriber.cpp:342-348 | On arbitrary input the decoders disagree about going on if and only if a Pong payload was cut short |
| WebFrames.EveryReadIsAFrame | server/src/transport/websocket/ws_subscriber.cpp:290-320 | Conversely, whatever is read as a header is the encoding of that header |
| Sha1.PadMessage | client/src/crypto/sha1.c:44-55 | The calloc, memcpy and shifting loop build the padded message of section 4 of RFC 3174 |
| Sha1.PutBitLength | server/src/transport/websocket/ws_subscriber.cpp:48-53 | The last eight bytes become the big-endian bit length, the others stay |
| Sha1.PaddedLengthIsLeast | client/src/crypto/sha1.c:44 | The padded length is the least multiple of 64 that is at least len + 9 |
| Sha1.PadInjective | client/src/crypto/sha1.c:44-55 | For messages under 2^61 bytes, equal padded messages come from equal messages |
| Sha1.FillSchedule | client/src/crypto/sha1.c:58-65 | The array of 80 words is the recursive message schedule of section 6.1 of RFC 3174 |
| Sha1.RunSteps | client/src/crypto/sha1.c:67-78 | The 80-step loop over five variables is the step function iterated over the schedule |
| Sha1.Compress | client/src/crypto/sha1.c:67-79 | One block adds the result of its 80 steps to the chaining value in place |
| Sha1.Compute | client/src/crypto/sha1.c:36-85 | For every message the array program writes the functional digest |
| Sha1.StoreDigest | client/src/crypto/sha1.c:83-84 | The 20 output bytes are the five words, big-endian |
| Base64.EncodeInto | client/src/crypto/base64.c:8-24 | The caller's buffer holds the encoding and a final NUL, and the returned length is the encoded size |
| Base64.EncodeString | server/src/transport/websocket/ws_subscriber.cpp:102-117 | The string version gives the same text |
| Base64.EncodedLength | client/src/crypto/base64.c:26-29 | The text is exactly as long as base64_encoded_size says |
| Base64.EncodedShape | client/src/crypto/base64.c:17-20 | Every character is in the alphabet or, in the last two places only, an equals sign |
| Base64.DecodeEncode | client/src/crypto/base64.c:8-24 | A decoder of section 4 of RFC 4648 inverts the encoder on every byte string |
| Base64.EncodeInjective | client/src/crypto/base64.c:8-24 | Different byte strings have different texts |
| Handshake.RecvLine | server/src/transport/websocket/ws_subscriber.cpp:383-396 | Reads exactly one line of the stream, without its line end, or fails at the end of data |
| Handshake.RecvBufferLine | client/src/network/net_platform.c:99-118 | The same into a bounded buffer: over-long lines are split, a NUL ends the C string |
| Handshake.DoHandshake | server/src/transport/websocket/ws_subscriber.cpp:217-271 | Answers with the 101 response for the last key header, or fails without answering when there is none, and leaves unread exactly what follows the empty line |
| Handshake.RestOfPrefix | server/src/transport/websocket/ws_subscriber.cpp:217-271 | A request cut short leaves nothing unread, or a beginning of what the whole one leaves, and then gets the same answer |
| Handshake.ComputeAcceptKey | server/src/transport/websocket/ws_subscriber.cpp:277-283 | The accept value is the Base64 text of the SHA-1 digest of key and GUID |
| Handshake.IstrContains | client/src/transport/websocket/ws_client.c:56-73 | The nested loops find the needle if and only if it occurs ignoring case |
| Handshake.ExtractHeaderValue | client/src/transport/websocket/ws_client.c:75-95 | The value is the trimmed text after the first colon when the header is named and the value fits, otherwise the old one stays |
| Handshake.ReadReply | client/src/transport/websocket/ws_client.c:138-196 | The flag-setting loop decides as the specification of the reply does, over every split of the data |
| Handshake.SendRequest | client/src/transport/websocket/ws_client.c:102-136 | Requests of 1024 characters or more are refused unsent; otherwise the request goes out and the expected accept value is computed |
| Handshake.ServerAcceptsClient | server/src/transport/websocket/ws_subscriber.cpp:217-271 | For every sendable request the server finds exactly the client's key, and leaves whatever follows the request |
| Handshake.ClientVerdict | client/src/transport/websocket/ws_client.c:138-196 | For accept values up to 2025 characters the client accepts the server's response if and only if the trimmed value is the expected one and has fewer than 64 characters |
| Handshake.RejectionLimit | client/src/transport/websocket/ws_client.c:156-171 | No wrong accept value of n characters is accepted, for any key, if and only if n is at most 2025 |
| Handshake.ClientReading | client/src/transport/websocket/ws_client.c:138-196 | For values of any length the client accepts the response if and only if the value it takes from the pieces of its line is the expected one |
| Handshake.AcceptSeenShort | client/src/transport/websocket/ws_client.c:138-171 | For values up to 2025 characters the client takes the trimmed value, or none when that has 64 characters or more |
| Handshake.LongValueCanBeAccepted | client/src/transport/websocket/ws_client.c:156-171 | A second accept header inside a longer value is taken for one of the response |
| Handshake.HandshakeAgrees | client/src/transport/websocket/ws_client.c:96-196 | For every nonce, host and path that can be sent, the server answers and the client accepts the answer |
| RingBuffers.RingBuffer.constructor | server/include/ringbuffer/ringbuffer.hpp:17-24 | A new buffer is the empty queue |
| RingBuffers.RingBuffer.TryPush | server/include/ringbuffer/ringbuffer.hpp:30-39 | Appends to the queue unless it is full, also for capacity 0 |
| RingBuffers.RingBuffer.DrainNoWait | server/include/ringbuffer/ringbuffer.hpp:57-69 | Returns the whole queue, oldest first, and leaves it empty |
| RingBuffers.RingBuffer.Stop | server/include/ringbuffer/ringbuffer.hpp:72-77 | Only the stop flag changes |
| RingBuffers.TailPosition | server/include/ringbuffer/ringbuffer.hpp:34-36 | In every valid buffer tail = (head + count) mod capacity |
| RingBuffers.FifoConservation | server/include/ringbuffer/ringbuffer.hpp:30-69 | Over every operation sequence what was drained followed by what is buffered is what was accepted, in order |
| RingBuffers.RunOps | server/include/ringbuffer/ringbuffer.hpp:30-69 | The array implementation refines the bounded queue over every operation sequence |
| BlockingDrain.NoLostWakeup | server/include/ringbuffer/ringbuffer.hpp:41-77 | In every reachable state with items or a stop and a consumer inside drain(), some consumer is woken, and it takes everything and returns |
| BlockingDrain.StopReleasesAll | server/include/ringbuffer/ringbuffer.hpp:41-77 | In every run after stop() nobody waits, and each consumer inside drain() leaves with its next step |
| StorageProtocol.ControlStep | server/src/storage/storage_manager.cpp:142-174 | Every step keeps the mutex and phase relations, and no notified writer sleeps or is about to |
| StorageProtocol.InvAlways | server/src/storage/storage_manager.cpp:142-188 | The whole invariant holds after every legal sequence of steps |
| StorageProtocol.Conservation | server/src/storage/storage_manager.cpp:142-188 | In every reachable state pushes = dropped + about to be counted + buffered + in flight + written + failed, batches are a prefix of the accepted packets in order, and a notified writer is awake |
| StorageProtocol.NothingLeftBehind | server/src/main.cpp:320-326 | When producers are joined before stop(), afterwards nothing is buffered or in flight and every accepted packet was handed to the formatter |
| StorageProtocol.LatePushStays | server/src/storage/storage_manager.cpp:142-151 | Without that order a run exists that leaves a pushed packet behind |
| StorageProtocol.LateIsLeft | server/src/storage/storage_manager.cpp:142-151 | After the final drain of stop() the buffer holds exactly the packets accepted since, so it is empty if and only if none came late |
| StorageProtocol.StopGetsNearer | server/src/storage/storage_manager.cpp:142-174 | Once stop() has begun, each step of writer or stopper decreases a measure of at most 14 and producer steps leave it alone |
| StorageProtocol.StopIsBounded | server/src/storage/storage_manager.cpp:142-174 | Hence in every interleaving at most 14 such steps remain |
| StorageProtocol.StopNeverStuck | server/src/storage/storage_manager.cpp:142-174 | Until stop() returns, such a step is possible without any timeout or spurious wake-up |
| Storage.StorageManager.Push | server/src/storage/storage_manager.cpp:153-160 | A packet is buffered behind the others, or the drop counter goes up by one |
| Storage.StorageManager.FlushNow | server/src/storage/storage_manager.cpp:176-188 | The buffer is emptied in any case, the file becomes what write_packets leaves, and the counter grows by all of the packets if and only if that returned true |
| Storage.WholeRun | server/src/storage/storage_manager.cpp:117-188 | When every formatter call returned true, in every interleaving the file ends as its opening content followed by one row per accepted packet in order if and only if all streams were flushed; the counters cover every push either way; then the header is a line of its own if and only if the file was not the bare header |
| Storage.RunWithFailures | server/src/storage/storage_manager.cpp:117-188 | Whatever fails after the header was written, in every interleaving the file ends as what the header call left followed by what reached it of each batch, and the part below splits into the rows that reached it whole if and only if no stream ended within a row |
| BufferSizing.NoDropWhenTimely | server/include/ringbuffer/ringbuffer.hpp:30-39 | In every run of the storage threads with pushes at least 5 ms apart and each less than 5 * capacity ms after the last drain, no push is refused |
| BufferSizing.SafeGap | server/include/ringbuffer/ringbuffer.hpp:30-39 | No timely run of the storage threads refuses a push if and only if the drain distance is below 5 * capacity; at equality a run that does is given |
| BufferSizing.AutoCapacityTolerates | server/src/main.cpp:146-158 | Auto-sizing never shrinks the buffer and makes 5 * capacity exceed 2 * flush interval - 5 |
| Stats.GapIsSkipped | server/src/misc/stats_analyzer.cpp:48-52 | Both branches of the gap equal (seq - last - 1) mod 2^32, and neither wraps on the way |
| Stats.LossConservation | server/src/misc/stats_analyzer.cpp:46-57 | received + lost never exceeds the span of sequence values, and equals it if and only if no non-zero gap went uncounted |
| Stats.SpanReachesLast | server/src/misc/stats_analyzer.cpp:46-57 | The span leads from the first sequence number to the last, around any number of wraps |
| Stats.DuplicateLosesNothing | server/src/misc/stats_analyzer.cpp:46-57 | A packet received twice in a row adds no loss |
| Stats.CounterLosesNothing | client/src/sensor/sensor_data_sim.c:77 | The client's wrapping counter, received whole, shows no loss |
| Stats.WindowStep | server/src/misc/stats_analyzer.cpp:40-42 | Push and pop keep exactly the newest history_size latencies |
| Stats.MaxStartsAtZero | server/src/misc/stats_analyzer.cpp:38 | The reported maximum is the larger of 0 and the true maximum |
| Stats.MaxReportedIsTrue | server/src/misc/stats_analyzer.cpp:38 | It is the true maximum if and only if some latency is not negative |
| Stats.ReportIsOrdered | server/src/misc/stats_analyzer.cpp:74-96 | Below 10^17 ms: min <= avg <= max latency, avg <= max jitter, max jitter <= max - min |
| Stats.JitterRange | server/src/misc/stats_analyzer.cpp:26-34 | The summed jitter is at least the distance of the last latency from the first |
| Stats.StatsAnalyzer.Record | server/src/misc/stats_analyzer.cpp:17-72 | Every field agrees with the history extended by one sample |
| Stats.StatsAnalyzer.CountLoss | server/src/misc/stats_analyzer.cpp:46-57 | The loss counter grows by the gap when it is counted |
| Stats.StatsAnalyzer.TakeSnapshot | server/src/misc/stats_analyzer.cpp:74-96 | The snapshot is the report of the history |
| Stats.StatsAnalyzer.Reset | server/src/misc/stats_analyzer.cpp:132-148 | Leaves the state of an empty history |
| Text.DecimalRoundTrip | client/src/sensor/sensor_data_sim.c:108-114 | Printed decimals are digits that read back as the number |
| Text.StrtoullReadsDecimal | server/src/misc/packet_validator.cpp:82-87 | A decimal of 64 bits in any text reads back as itself and stops right after its digits |
| Text.RoundedClose | client/src/sensor/sensor_data_sim.c:108-114 | Printing with six decimals is off by at most half a millionth |
| Text.RoundedExact | client/src/sensor/sensor_data_sim.c:108-114 | Values with six decimals are printed exactly |
| Text.StrtodReadsFixed6 | server/src/misc/packet_validator.cpp:115-120 | A number printed with six decimals reads back as the rounded number and stops right after it |
| Packets.SensorToJson | client/src/sensor/sensor_data_sim.c:106-117 | Returns the text and its length if it fits with its NUL, otherwise -1 |
| Packets.KeyLandsOnOwnField | server/src/misc/packet_validator.cpp:72-79 | In any flat object of distinct plain keys the search for a key lands on that key's own value, never inside another field |
| Validator.PacketValidator.SeekValue | server/src/misc/packet_validator.cpp:72-80 | Finds the value position the key search defines |
| Validator.PacketValidator.ExtractUint64 | server/src/misc/packet_validator.cpp:68-88 | Succeeds exactly when a 64-bit number follows the key, and returns it |
| Validator.PacketValidator.ExtractUint32 | server/src/misc/packet_validator.cpp:90-99 | The same, refusing values above 2^32 - 1 |
| Validator.PacketValidator.ExtractDouble | server/src/misc/packet_validator.cpp:101-121 | Succeeds exactly when a number follows the key, and returns it |
| Validator.PacketValidator.ExtractArrayDoubles | server/src/misc/packet_validator.cpp:129-166 | Returns the longest readable prefix of the array, up to the maximum |
| Validator.PacketValidator.Parse | server/src/misc/packet_validator.cpp:208-305 | Dispatches on the format; both parsers give what their specifications say; the counter moves only for Android texts, accepted or not |
| Validator.PrintedIsNative | server/src/misc/packet_validator.cpp:175-181 | A printed packet is never taken for the Android format |
| Validator.FieldsRead | server/src/misc/packet_validator.cpp:257-296 | Each of the five keys of a printed packet reads its own field |
| Validator.PrintParse | server/src/misc/packet_validator.cpp:247-305 | Parsing a printed packet gives the packet with axes rounded to six decimals, or the refusal its range or zero timestamp calls for |
| Validator.SixDecimalAxesSurvive | server/src/misc/packet_validator.cpp:247-305 | With six-decimal axes and a non-zero timestamp the same packet comes back if and only if its axes are in range |
| Validator.FitsBuffer | client/src/sensor/sensor_data_sim.c:106-117 | The text of any packet with axes of at most 56 integer digits fits 256 bytes |
| Validator.JsonLength | client/src/sensor/sensor_data_sim.c:108-114 | The exact length of the text from the lengths of its five numbers |
| Validator.FiftySevenDigitsOverflow | client/src/sensor/sensor_data_sim.c:106-117 | With 57 digits, signs and the longest integers it does not |
| Formatter.CsvFormatter.WriteHeader | server/src/format/csv/csv_formatter.cpp:24-51 | Returns true exactly when the file has the header or opens and takes the write into its stream; keeps a matching file, otherwise the file holds what the stream got into it; nothing else changes |
| Formatter.CsvFormatter.WritePackets | server/src/format/csv/csv_formatter.cpp:53-82 | Returns true exactly when there is nothing to do or the streams open and stay good; the file gains what its streams got into it of header and rows, and nothing else changes |
| Formatter.FlushDecides | server/src/format/csv/csv_formatter.cpp:43-81 | A call that returned true has its header and rows in the file if and only if its streams were flushed when they were closed |
| Formatter.RowsCanBeLost | server/src/format/csv/csv_formatter.cpp:64-81 | For every state and batch: write_packets can return true and leave the file as it was |
| Formatter.HeaderCanBeLost | server/src/format/csv/csv_formatter.cpp:43-49 | For every file without a header: write_header can return true without writing it, and later rows then stand below none |
| Formatter.HeadedFileGrows | server/src/format/csv/csv_formatter.cpp:24-82 | Whatever fails, no call takes anything from a file that shows its header, and write_packets on a known path only appends |
| Formatter.NoHeaderNoRows | server/src/format/csv/csv_formatter.cpp:58-62 | Until the header call returns true, no row is written and no call with packets returns true |
| Formatter.ContentWithFailures | server/src/format/csv/csv_formatter.cpp:24-82 | Whatever fails, a file whose header call returned true holds what that call left followed by what reached it of the rows of that call and the later ones |
| Formatter.CutRowsSplit | server/src/format/csv/csv_formatter.cpp:70-79 | What reached a file of several batches splits into the rows that reached it whole if and only if no stream ended within a row |
| Formatter.FileContents | server/src/format/csv/csv_formatter.cpp:24-82 | For every file, separator and series of calls that returned true and were flushed: the file is its opening content followed by one row per packet in call order if and only if no header call followed packets, or the separator has no newline and the file was not the bare header |
| Csv.HeaderLineKept | server/src/format/csv/csv_formatter.cpp:28-41 | With no header call after packets and nothing lost, the header is a line of its own if and only if the file was not the bare header without a newline |
| Csv.BareHeaderIsGlued | server/src/format/csv/csv_formatter.cpp:28-41 | A concrete run in which the first row is glued to the header |
| Csv.SecondHeaderDeletesRows | server/src/format/csv/csv_formatter.cpp:28-46 | Any rows below a bare header are deleted by the next header call |
| Csv.RowSplits | server/src/format/csv/csv_formatter.cpp:73-77 | Splitting a row at a separator free of digits, point, minus and newline gives exactly its five printed fields |
| Csv.FieldsAreThePacket | server/src/format/csv/csv_formatter.cpp:73-77 | Those fields read back as the packet with six decimals kept |
| Csv.RowsSplitIntoLines | server/src/format/csv/csv_formatter.cpp:70-79 | Splitting the rows of a file at the newlines gives one line per packet |
| WebClients.OwnershipStep | server/src/webif/web_interface.cpp:161-190 | Every step keeps the open descriptors exactly the owned ones, each with one owner, though closed numbers are handed out again |
| WebClients.RegisteredStep | server/src/webif/web_interface.cpp:257-280 | Every step keeps the broadcast list free of duplicates and of closed descriptors |
| WebClients.CoversStep | server/src/webif/web_interface.cpp:183-188 | Every step keeps the count equal to the unfinished handlers, including the one about to start |
| WebClients.ClosedOnceStep | server/src/webif/web_interface.cpp:225-283 | Every step keeps: each close was of the caller's own connection, and once |
| WebClients.InvAlways | server/src/webif/web_interface.cpp:129-283 | All of this holds after every legal sequence of steps |
| WebClients.OwnershipAlways | server/src/webif/web_interface.cpp:129-437 | In every reachable state a handler's descriptor is open and its own, no close hit a stranger or a closed descriptor or happened twice, and the list is clean |
| WebClients.CleanStop | server/src/webif/web_interface.cpp:129-156 | When the wait in stop() ends with the count at 0, no descriptor is open, the list is empty, every accepted connection was closed by its own handler, and no handler has more to do than notify the condition variable |
| WebClients.LastExitCanBeMissed | server/src/webif/web_interface.cpp:183-187 | A run exists in which stop() sleeps although the count is 0 and nobody will wake it before the timeout |
| WebClients.OversleepStep | server/src/webif/web_interface.cpp:150-155 | A step puts stop() to sleep with the count at 0 and nobody left to notify exactly when it is the step into the sleep taken in such a state; only the timeout or a spurious wake-up ends that |
| WebClients.OversleptExactly | server/src/webif/web_interface.cpp:150-155 | In every run stop() is asleep with nobody to wake it if and only if some step into the sleep came after the last notification with the count at 0, and no timeout or spurious wake-up followed |
| WebClients.LastExitWakes | server/src/webif/web_interface.cpp:185-187 | A handler that brings the count to 0 while stop() sleeps is never missed: in every continuation stop() sleeps only until that handler notifies, is awake, or has seen the 0 |
| WebClients.HandlerCanOutliveStop | server/src/webif/web_interface.cpp:185-187 | A run exists in which stop() has returned on a count of 0 while a handler is still about to notify |
| ConfBuffer.StrTrim | shared/include/confparser.h:140-152 | The in-place string becomes the trimmed one; nothing outside the old string changes |
| ConfBuffer.StrUnquote | shared/include/confparser.h:162-172 | One pair of enclosing quotes is removed in place; nothing outside changes |
| ConfBuffer.StrToLower | shared/include/confparser.h:155-159 | The string is lower-cased in place; nothing outside changes |
| ConfTable.FileStream.Gets | shared/include/confparser.h:257 | fgets: the next line or the next 1023 characters, NUL-terminated, the rest left for the next call |
| ConfTable.ConfResult.Push | shared/include/confparser.h:202-232 | Appends the truncated, lower-cased entry through any growth step, or refuses when 512 are stored |
| ConfTable.ConfResult.Grow | shared/include/confparser.h:208-216 | The capacity grows, at most to 512, and the entries stay |
| ConfTable.ParseLine | shared/include/confparser.h:261-319 | The pointer-and-NUL program on the line buffer classifies every line as its text defines |
| ConfTable.ParseValue | shared/include/confparser.h:303-317 | The value is trimmed, freed of its comment and unquoted in place |
| ConfTable.LoadStream | shared/include/confparser.h:248-331 | For every file the table, message and error line are those of the line-by-line specification |
| ConfTable.Load | shared/include/confparser.h:334-437 | For an opened file the table, message and error line of the line-by-line specification, otherwise an empty table with a message |
| ConfTable.LoadTakesFirst | shared/include/confparser.h:248-331 | The table is the first 512 accepted pairs of the file, in order |
| ConfTable.FindEntry | shared/include/confparser.h:440-462 | Finds the first entry equal in lower-cased 63-character key and case-insensitive section, or nothing when there is none |
| ConfLines.ValueSurvives | shared/include/confparser.h:303-317 | A value reads back as itself if and only if it is trimmed, not wrapped in quotes and has no comment |
| ConfLines.MeaningIsClean | shared/include/confparser.h:261-319 | Every accepted section, key and value is free of the characters the loader splits at |
| ConfDump.ConfDump | shared/include/confparser.h:588-600 | Writes the text specified as header lines and entry lines |
| ConfDump.EntryMeaning | shared/include/confparser.h:598 | Each dumped entry line fits the line buffer and loads as its trimmed key and value |
| ConfDump.SectionMeaning | shared/include/confparser.h:595 | Each dumped section line fits and loads as that section, the empty one under its new name |
| ConfDump.LoadOfDump | shared/include/confparser.h:588-600 | Loading a dump gives the table with each entry as its line reads |
| ConfDump.RoundTrip | shared/include/confparser.h:588-600 | A loaded table survives dump and load if and only if every section is non-empty and trimmed, every key trimmed and every value plain |
| ConfDump.LoadedAlways | shared/include/confparser.h:248-331 | Every table the loader builds is of the kind these results are about |
| ConfDump.LoadDumpLoad | shared/include/confparser.h:334-437 | For every file: load, dump and load gives the same table if and only if all entries have that form |
| Directories.EnsureDirectoryExists | server/src/storage/storage_manager.cpp:35-66 | mkdir is never called with a missing parent and only prefixes of the path are added; it succeeds if and only if no file stands where a prefix needs a directory and, without permission to write, all prefixes exist; then all exist, and the path is a directory if and only if it did not name a file |
| Directories.ParentIsEarlier | server/src/storage/storage_manager.cpp:41-64 | The parent of every prefix is the root or an earlier prefix |
| Directories.OnAFile | server/src/storage/storage_manager.cpp:58-59 | A concrete call that succeeds on an existing file and leaves no directory |

## Left out

- Real sockets, `select`, `accept`, timeouts, socket options and platform branches; the socket class stands for them.
- The MQTT client and subscriber, which wrap a library that is not visible.
- Logging, help text, configuration printing, timestamped file names and the HTTP and JSON answers of the dashboard.
- Command line parsing and `apply_conf`, `conf_find_config` and the typed getters of the INI parser.
- The `sensor_device` emulator, and the simulated values of `sensor_read`; only its sequence counter is used.
- IEEE floating point: axes and averages are exact reals, `%.6f` rounds half to even on the exact value, and
  `strtod` reads decimal numbers only, without infinities, NaN, hexadecimal digits, negative zero or range errors.
- Allocation failure, including that of a vector for a huge announced frame length.
- The quality of the masks and seeds, and fragmented messages, which the code does not reassemble.
- The dashboard's own handshake (`do_ws_upgrade`, `ws_accept_key`); its digest and Base64 code is that of the C library.
- The two further copies of the SHA-1 and Base64 code are not modelled apart: they do the same steps with the same constants.
- ConfTable.Load: the second copy of the loading loop in `conf_load` does the same steps as `conf_load_fp` and is modelled by the one loop of `ConfTable.LoadStream`.
- Validator.PacketValidator.ExtractDouble: numbers spelled nan, inf or in hexadecimal, and range errors of `strtod`, are not modelled.
- Validator.PacketValidator.ExtractArrayDoubles: the same restriction on its numbers.
- Unsigned wrap-around of the 64-bit packet and byte counters, and of `int` line numbers.
- Stats.StatsAnalyzer.constructor: asks for a positive report interval, because with 0 the source divides by a zero duration.
- BlockingDrain.NoLostWakeup: works on the number of buffered items; their order is covered by the ring buffer results.
- StorageProtocol.InvAlways: one caller of `stop()`; a second concurrent caller returns at once in the source.
- WebClients.OwnershipAlways: says nothing about which peer a `send` or `shutdown` on a reused descriptor reaches.
- Directories.EnsureDirectoryExists: excludes paths with a `..` component, as parents cannot then be read off the text; `extract_directory` is not modelled.
- Pipeline.EndToEnd: one connection, packets within the validator's limits whose text fits the client's buffer, and formatter calls that returned true.
- Formatter.CsvFormatter.WritePackets: a failed flush loses the end of a stream's text; one that loses a middle part, or writes a part twice when the close tries again, is not modelled.
- Storage.RunWithFailures: assumes that the header call of `start()` returned true; `Formatter.ContentWithFailures` covers the others.
- Validator.PacketValidator.Parse: the server clock is a parameter, the shared Android counter is a field, and an axis spelled nan counts as missing where the source takes it.
