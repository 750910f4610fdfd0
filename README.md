# P2P file sharing client: a verified model of its transfer protocol

`public/script.js` is the browser half of a relay-based file-sharing
application. A single class, `P2PFileSharing`, pairs two browsers through a
room code relayed by a WebSocket server. One browser offers a file and the
other accepts or declines it. The file is then cut into 32 KiB chunks, each
chunk is base64-encoded and sent as its own `file-chunk` message, and the
receiver rebuilds the file and downloads it.

This project models the logic of that class in Dafny and proves what it
promises.

- `types.dfy` (`Types`): bytes and `Option`.
- `base64.dfy` (`Base64`): the codec the client relies on.
  - `readAsDataURL` encodes with the padded alphabet of section 4 of RFC 4648.
  - `atob` decodes with the "forgiving-base64 decode" algorithm of the WHATWG
    Infra standard.
  - The proved round trip is `Decode(Encode(b)) == Some(b)` for every byte
    sequence.
- `chunking.dfy` (`Chunking`): the chunk arithmetic of `sendFileChunks`.
  - The count is `ceil(size / chunkSize)`.
  - Chunk `i` covers `[i*chunkSize, min(i*chunkSize + chunkSize, size))`.
  - The chunks are non-empty, contiguous and join back to the file.
- `protocol.dfy` (`Protocol`): the wire messages, one constructor per `type`,
  and the pure specifications the handlers are proved against.
  - `SenderTrace` is everything the sender emits for a file, given the chunk
    (if any) whose read fails.
  - `Received` is the receiver's buffer after a sequence of messages.
  - `Assemble` is the outcome of `assembleFile`.
  - The end-to-end lemmas connect the three.
- `session.dfy` (`FileSharing`): the class itself.
  - Its fields are `connectionId`, `roomId`, `role`, `currentFile`,
    `fileChunks` and `receivedChunks`.
  - `channelOpen` stands for the socket's `readyState === OPEN`.
  - `transferFileName` is the name shown on the transfer panel, which names
    the download.
  - `outbox` is what the socket accepted, and `downloads` is what reached
    `downloadFile`.
  - Each handler is a method.
    - Its `modifies` clause names the fields the source assigns.
    - Its `ensures` states their new values, either directly or as an update
      of the `State()` snapshot.
  - `sendFileChunks` and `assembleFile` keep their loops, proved with
    invariants against `SenderTrace` and `Assemble`.
- `scenario.dfy` (`Scenario`): client code over the class.
  - Four independent single-client scenarios each drive one fresh instance
    through one step: asking for a room, joining with a padded code,
    negotiating, and delivering a chunk.
  - A relayed exchange puts a sender and a receiver on one relay. The caller
    answers the room requests itself and passes the offer, the answer and the
    chunk that one client sends to the other client's `HandleMessage`. It
    ends with the receiver holding exactly one download: the sender's
    five-byte file under its name.

Effects the class receives from outside are parameters:

- A `FileReader` read that rejects is `readFailure: Option<nat>`, the index of
  the first chunk whose read fails.
- The `setTimeout(() => this.goBack(), …)` that several handlers schedule is
  the out-parameter `resetScheduled`. The reset itself is a later call to
  `GoBack`.
- An incoming JSON message is the `Message` argument of `HandleMessage`.

Behaviour worth knowing, each proved as a lemma:

- The reassembly trigger is the buffer's size, exactly as the code has it.
  - A repeated index overwrites the earlier payload and does not grow the
    buffer.
  - A stale index outside `0..totalChunks-1` can make the size reach
    `totalChunks` with an index missing. The per-index `!chunk` check in
    `assembleFile` then fails the assembly with `file-error`
    (`StaleIndexFailsAssembly`).
  - So no short or wrong file is ever produced from a buffer with a missing
    index.
  - Once the buffer is complete, a further duplicate chunk triggers
    reassembly again, with a second report and a second download
    (`DuplicateReassembles`).
- A zero-byte file yields no `file-chunk` at all. The sender emits only
  `file-complete`, so the receiver never reassembles and never downloads an
  empty file (`EmptyFileTrace`, `ZeroByteFileNotDownloaded`).
- No handler checks the role or the protocol state. For example, chunks are
  accepted at any time. The model mirrors that.

## Model

| member | source | states |
|---|---|---|
| Base64.EncodeDigits | public/script.js:449-456 | The unpadded base64 text of the bytes uses only the 64 alphabet characters, never has a length of 1 modulo 4, and is empty exactly for no bytes |
| Base64.EncodeLength | public/script.js:449-456 | The padded text `readAsDataURL` yields is a whole number of four-character groups, and empty exactly for an empty chunk |
| Base64.Decode | public/script.js:458-459 | `atob` succeeds exactly when, after one or two trailing `=` are dropped from a text whose length is a multiple of four, no character is outside the alphabet and the length is not 1 modulo 4; otherwise it throws (None) |
| Base64.RegroupBits | public/script.js:449-459 | Regrouping three bytes into four 6-bit values and back gives the same three bytes |
| Base64.DecodeEncodeDigits | public/script.js:449-459 | Decoding the unpadded encoding of any byte sequence gives the sequence back |
| Base64.StripEncoded | public/script.js:449-459 | The forgiving decoder's padding step removes exactly the padding the encoder added |
| Base64.DecodeEncode | public/script.js:449-466 | For every byte sequence, `atob` applied to the base64 that `fileToBase64` produces returns exactly those bytes |
| Chunking.ChunkCount | public/script.js:341 | `totalChunks` is the least count whose combined capacity covers the file: `size <= n*chunkSize`, `(n-1)*chunkSize < size` when `n > 0`, and `n == 0` exactly for an empty file |
| Chunking.ChunkEnd | public/script.js:345-346 | Chunk `i`'s end lies after its start and within the file, spans at most one chunk size, is the file's end exactly for the last index, and otherwise is the next chunk's start |
| Chunking.Chunk | public/script.js:347 | Every chunk slice is non-empty and at most `chunkSize` bytes long |
| Chunking.Chunks | public/script.js:341-347 | The file yields exactly `totalChunks` chunks |
| Chunking.ChunksContiguous | public/script.js:344-347 | Consecutive chunks meet with no gap and no overlap |
| Chunking.JoinPrefix | public/script.js:344-347 | The first `k` chunks joined are the first `min(k*chunkSize, size)` bytes of the file |
| Chunking.JoinChunks | public/script.js:344-347 | All chunks joined in index order are the whole file |
| Protocol.Trim | public/script.js:222 | `trim()` leaves a text that neither starts nor ends with white space; it is a contiguous part of the input with only white space around it, and empty exactly when the input is all white space |
| Protocol.ChunkMessage | public/script.js:351-356 | Chunk `i` goes out as a `file-chunk` carrying index `i`, the file's `totalChunks` and a non-empty payload |
| Protocol.ChunkPayloadDecodes | public/script.js:350-356 | The payload of chunk `i` decodes with `atob` to exactly chunk `i`'s bytes |
| Protocol.SenderTraceShape | public/script.js:344-376 | The sender's messages are `file-chunk` with indices 0, 1, … in order, all carrying the same `totalChunks`. There is exactly one final report: `file-complete` after all chunks, or `file-error` in place of the chunk whose read failed |
| Protocol.SenderTraceReportsOnce | public/script.js:344-376 | Only the last message is a report; it is `file-complete` exactly when no read failed and `file-error` exactly when one did |
| Protocol.EmptyFileTrace | public/script.js:341-376 | A zero-byte file produces no chunk, only `file-complete` |
| Protocol.StoreSize | public/script.js:380 | Storing under an index already in the buffer leaves its size unchanged; a new index grows it by one |
| Protocol.AssemblePrefix | public/script.js:395-402 | Walking indices `0..k-1` succeeds exactly when each holds a non-empty payload that `atob` accepts |
| Protocol.Assemble | public/script.js:393-416 | `assembleFile` produces a file exactly when every index below `totalChunks` holds a usable payload; otherwise it throws |
| Protocol.AssembleSentChunks | public/script.js:395-404 | A buffer holding the sender's payloads for indices below `k` reassembles to the first `k` chunks joined |
| Protocol.SizeTriggerExact | public/script.js:388-400 | When the size trigger fires and every index `0..totalChunks-1` is present, the buffer holds exactly those indices |
| Protocol.StaleIndexFailsAssembly | public/script.js:388-400 | Suppose the size trigger fires while the buffer holds an index outside `0..totalChunks-1`. Then assembly fails rather than producing a file |
| Protocol.ReceivedSentChunks | public/script.js:379-380 | After the sender's first `k` chunk messages, a fresh buffer holds exactly indices `0..k-1`, each with its own payload |
| Protocol.TransferRoundTrip | public/script.js:379-404 | On the sender's chunk stream, the size trigger fires on the last chunk and on no earlier one, and reassembly then gives back exactly the sent file |
| Protocol.ReassembleWholeFile | public/script.js:393-404 | The buffer filled by all of the sender's chunks reassembles to the file |
| FileSharing.TransmitKeepsHistory | public/script.js:504-508 | `send` never alters what was already sent; an open socket appends exactly the new messages, a closed one appends nothing |
| FileSharing.TransmitAppend | public/script.js:504-508 | Sending two batches one after the other is sending their concatenation |
| FileSharing.ResetIdempotent | public/script.js:183-196 | Going back twice is going back once, and the state before going back does not matter beyond the fields `goBack` leaves alone |
| FileSharing.AssemblyOutcome | public/script.js:393-417 | `assembleFile` reports exactly once. It sends `file-complete` and adds one download exactly when every index is usable, and otherwise sends `file-error` and adds none; it never sends both and never touches the buffer |
| FileSharing.DuplicateReassembles | public/script.js:379-391 | Once the buffer has `totalChunks` entries, a repeated chunk sets off reassembly again |
| FileSharing.ReceiveBeforeLast | public/script.js:379-391 | Before the last chunk of the sender's stream arrives, the receiver only buffers: it sends nothing and downloads nothing |
| FileSharing.ReceiveWholeFile | public/script.js:379-417 | A receiver with an empty buffer that handles every chunk of a non-empty file downloads exactly that file under the offered name, and reports `file-complete` once |
| FileSharing.ZeroByteFileNotDownloaded | public/script.js:341-391 | For a zero-byte file, the receiver's state after the sender's whole stream is unchanged: no download |
| FileSharing.AssembleStopsAt | public/script.js:396-401 | Where the assembly loop stops at an unusable index, reassembly as a whole fails |
| FileSharing.P2PFileSharing.constructor | public/script.js:2-10 | A new client has no identity, room, role, file or chunks, a socket not yet open, and nothing sent or downloaded |
| FileSharing.P2PFileSharing.ChannelOpened | public/script.js:87-90 | The socket is open afterwards; nothing else changes |
| FileSharing.P2PFileSharing.ChannelClosed | public/script.js:97-101 | The socket is closed afterwards; nothing else changes |
| FileSharing.P2PFileSharing.Send | public/script.js:504-508 | The message is appended to what was sent if the socket is open, and silently dropped otherwise |
| FileSharing.P2PFileSharing.ShowSendSection | public/script.js:156-161 | The role becomes sender; nothing else changes |
| FileSharing.P2PFileSharing.ShowReceiveSection | public/script.js:163-168 | The role becomes receiver; nothing else changes |
| FileSharing.P2PFileSharing.GoBack | public/script.js:183-196 | Role, room and file are cleared and both chunk stores emptied, whatever the prior state; identity, socket and history stay |
| FileSharing.P2PFileSharing.HandleFileSelect | public/script.js:198-207 | A selected file becomes the current file; no selection keeps the previous one |
| FileSharing.P2PFileSharing.CreateRoom | public/script.js:209-219 | `create-room` is sent only when a file is selected; otherwise nothing is sent |
| FileSharing.P2PFileSharing.JoinRoom | public/script.js:221-233 | A blank trimmed code sends nothing; otherwise `join-room` carries the trimmed code |
| FileSharing.P2PFileSharing.HandleRoomCreated | public/script.js:235-242 | The room id becomes the relayed one; nothing else changes |
| FileSharing.P2PFileSharing.HandleRoomJoined | public/script.js:244-249 | The room id becomes the relayed one; nothing else changes |
| FileSharing.P2PFileSharing.StartFileSending | public/script.js:282-297 | With a file selected, the panel shows its name and a `file-offer` with its name, size and type is sent; without one, nothing changes |
| FileSharing.P2PFileSharing.HandleFileOffer | public/script.js:299-306 | The transfer panel shows the offered name; nothing is sent |
| FileSharing.P2PFileSharing.AcceptFile | public/script.js:308-315 | Sends `file-answer` with `accepted: true` |
| FileSharing.P2PFileSharing.RejectFile | public/script.js:317-324 | Sends `file-answer` with `accepted: false` and schedules a reset |
| FileSharing.P2PFileSharing.SendFileChunks | public/script.js:338-377 | Without a file nothing is sent; with one, exactly the sender trace for that file goes through `send`. Nothing else changes |
| FileSharing.P2PFileSharing.SendChunk | public/script.js:344-356 | Slicing, encoding and sending chunk `i` sends exactly chunk `i`'s wire message |
| FileSharing.P2PFileSharing.HandleFileAnswer | public/script.js:326-336 | A declined answer sends nothing and schedules a reset. An accepted one sends the whole sender trace, if a file is selected, and schedules none |
| FileSharing.P2PFileSharing.AssembleFile | public/script.js:393-417 | The new state is the specified assembly outcome: one download and `file-complete`, or `file-error` alone |
| FileSharing.P2PFileSharing.HandleFileChunk | public/script.js:379-391 | The payload is stored under its index, overwriting; reassembly runs if and only if the buffer size then equals `totalChunks` |
| FileSharing.P2PFileSharing.HandleMessage | public/script.js:109-145 | Each message type has its specified effect. `connection` changes only the identity. An unrecognised type or an `error` changes nothing. A reset is scheduled exactly on `peer-disconnected`, a declined `file-answer`, `file-complete` and `file-error` |
| Scenario.CreateRoomAfterSelect | public/script.js:209-219 | No room is requested before a file is chosen; afterwards `create-room` is sent |
| Scenario.JoinWithPaddedCode | public/script.js:221-233 | A blank code sends nothing; " ABC123 " joins room "ABC123" |
| Scenario.Negotiate | public/script.js:282-377 | A 5-byte "a.txt" is offered with size 5 and type text/plain. Acceptance sends one chunk with `totalChunks` 1, then `file-complete` |
| Scenario.Deliver | public/script.js:299-417 | A receiver that accepts a one-chunk file and receives its chunk downloads exactly those bytes under the offered name and reports `file-complete` |
| Scenario.SingleChunkAssembles | public/script.js:341-404 | A file of at most one chunk travels as one message, which alone reassembles it |
| Scenario.PairThroughRelay | public/script.js:109-119 | Two fresh, distinct clients: the sender in send mode with "a.txt" selected, the receiver in receive mode; after the relay's `room-created` and `room-joined` replies pass through `HandleMessage`, both are in room "ABC123", and only `create-room` and `join-room` "ABC123" were sent |
| Scenario.SenderOpensRoom | public/script.js:156-219 | Opening the socket, choosing send mode, selecting a file and asking for a room leaves the file selected and exactly one `create-room` sent |
| Scenario.ReceiverJoins | public/script.js:163-233 | Opening the socket, choosing receive mode and joining sends exactly one `join-room` with the trimmed code and leaves the chunk buffer and downloads untouched |
| Scenario.TransferThroughRelay | public/script.js:109-417 | From a paired sender and receiver, relaying the offer, the answer and the chunk leaves the sender having sent the offer, one chunk and `file-complete`, and the receiver having sent its acceptance and `file-complete` and downloaded exactly the sender's bytes under the offered name |
| Scenario.OfferReachesReceiver | public/script.js:120-315 | `peer-joined` through `HandleMessage` makes the sender offer "a.txt" with size 5; that offer through the receiver's `HandleMessage` records the name, and accepting sends `file-answer` true |
| Scenario.AnswerReachesSender | public/script.js:129-377 | The acceptance through the sender's `HandleMessage` sends exactly one chunk holding the whole file, then `file-complete` |
| Scenario.ChunkReachesReceiver | public/script.js:132-417 | That chunk through the receiver's `HandleMessage` completes its buffer: it downloads the five bytes as "a.txt" and reports `file-complete` |
| Scenario.Exchange | public/script.js:109-417 | A whole relayed exchange ends with the receiver's downloads being exactly the sender's selected file under its name |

## Left out

- WebSocket connection, `onmessage` JSON parsing, `onerror` and the 3-second reconnect (public/script.js:81-107): network I/O and timers. The socket is the `channelOpen` flag, toggled by `ChannelOpened`/`ChannelClosed`. An incoming message is a `Message` value handed to `HandleMessage`.
- DOM work: element lookup, listeners, show/hide, status text, toasts, progress bar, button disabling and the download anchor (public/script.js:18-79, 170-181, 438-447, 468-502). It is presentation only. The download is recorded as a `Download` value.
- QR code fetch and clipboard copy (public/script.js:263-280): foreign HTTP and browser APIs.
- `checkUrlParams` and the upper-casing input listener (public/script.js:69-71, 147-154): they depend on URL and DOM APIs. `JoinRoom` takes the code as typed.
- Progress percentages and `formatFileSize` (public/script.js:359-360, 383-385, 474-490): floating-point arithmetic for display only.
- `setTimeout` delays: the 10 ms pacing and the 2-3 second resets (public/script.js:260, 323, 334, 363, 429, 435). They are timing, not logic. A scheduled reset is the `resetScheduled` result, and the reset is a later `GoBack` call.
- `handleFileComplete`, `handleFileError` and `handlePeerDisconnected` (public/script.js:257-261, 419-436) change no field. They are modelled only as a scheduled reset.
- The toast for a relay `error` message (public/script.js:141-143) is modelled as no state change.
- FileSharing.P2PFileSharing.SendFileChunks: the `await` points let other handlers run between chunks. For example, a `goBack` mid-stream clears `currentFile`. The next iteration then throws while computing the chunk's end (public/script.js:346, `this.currentFile.size` on `null`), outside the `try` block that starts at line 349, so the loop ends with no report at all. The model runs the loop without interleaving, and the failing read is the only error source.
- `FileReader` and `atob`: both are modelled as concrete codecs. A failed read is the `readFailure` parameter. `atob` strips ASCII white space before decoding; the model does not, and payloads produced by the encoder contain none.
- Chunking.ChunkCount: the count uses exact integer division. `Math.ceil` of a floating-point quotient agrees for every size below 2^53 bytes.
- `fileChunks` is never filled by the source, only cleared by `goBack`, so it stays a `seq<string>` that only `GoBack` writes.
- The initial text of the transfer panel's file-name element is markup outside the script. The model starts it as the empty string.
