# zslay: a verified model of the WebSocket framing layer

zslay parses and serializes WebSocket frames (sections 5.1 to 5.5 of RFC 6455) without doing any I/O of
its own: a connection is driven by callbacks that read and write an arbitrary byte transport. This project
models the whole stack and proves what it promises over whole runs.

| file | layer | source |
|---|---|---|
| `Types.dfy`, `Bytes.dfy` | wire vocabulary, byte order, exclusive or | `src/types.zig` |
| `Format.dfy` | the header octet by octet, in numerals | (specification) |
| `Mask.dfy`, `Codec.dfy` | payload masking, header codec | `src/frame.zig` |
| `Ring.dfy` | bounded deque | `src/queue.zig` |
| `Protocol.dfy`, `Connection.dfy` | admission rules, connection state machine | `src/event.zig` |
| `Stream.dfy`, `Wire.dfy`, `Delivery.dfy` | reference parser, wire images, chunk reassembly | (specification) |
| `Receive.dfy`, `Transmit.dfy` | one receive and one send call as functions of the transport | (specification) |
| `Endpoint.dfy`, `EndToEnd.dfy` | callback drivers, whole runs, two joined endpoints | `src/c_api.zig` |
| `Guard.dfy`, `Reentrancy.dfy` | entry tests, callback reentrancy guard | `src/c_api.zig` |
| `Witnesses.dfy` | runs on which the code falls short of its comments | `src/c_api.zig` |

Main results, all for every input and every run:

- **End-to-end identity** (`EndToEnd.EndToEndIdentity`, `EndToEnd.AnyRun`, `EndToEnd.ConnectedRun`): two
  endpoints of opposite role with equal limits, started by the initializer, any sequence of public calls, any
  partial writes, would-blocks, budget cut-offs and read sizes. If what the receiver read is part of what the
  sender wrote, the receiver rejects nothing, has delivered a prefix of the sender's frames in wire order, and
  once it has received everything and reports OK has delivered exactly the frames sent in full.
- **Receive refinement** (`Endpoint.Endpoint.Recv`, `Receive.PlanRecv`): a receive call returns the code,
  consumes, drops and stages the bytes, delivers the chunk and makes the reads that a recursive reference
  function predicts from the transport; `Receive.HeaderInHand` shows that the stage is transparent to it.
- **Send refinement** (`Endpoint.Endpoint.Send`, `Transmit.PlanSend`): a send call returns the code, leaves the
  queue and makes the writes that a recursive reference function predicts, offering the rest of a header, of the
  current 4096 bytes of a masked payload, or of a plain payload within 65536 bytes and the budget.
- **Split independence** (`Stream.ParseSplit`, `EndToEnd.ReceivedIsParsed`): the delivered chunks always
  reassemble to the one-shot parse of the consumed bytes; bytes received are bytes taken plus the stage, and bytes
  taken are bytes consumed as long as none was dropped.
- **Wire refinement** (`EndToEnd.SentIsWholeFrames`): the accepted bytes are whole serialized frames cut inside
  the head at most; exactly the frames queued are sent, and all that are neither ping nor pong in queue order.
- **One automaton** (`Wire.AcceptIffGrammatical`, `Stream.ParsedIsGrammatical`): sender and receiver admit
  exactly the message grammar of section 5.4 of RFC 6455 within the limits; `Protocol.PrepareMeans`,
  `Protocol.AdmissionMeans` and `Protocol.IncomingMeans` give every verdict and every error in numerals.
- **Codec and mask** (`Codec.DecodeMeans`, `Codec.EncodeMeans`, `Codec.EncodeDecode`, `Codec.DecodeEncode`,
  `Codec.HeadersArePrefixFree`, `Mask.MaskInPlace`): the octets of section 5.2 of RFC 6455, a canonical prefix-free
  code, and a word-wise mask that flips exactly the bits the key has set.
- **Guard** (`Reentrancy.EveryRunIsGood`, `Reentrancy.GuardExactly`): every nesting of calls and callbacks over any
  number of connections keeps the callback depth exact and at most two, and which calls get in is known exactly.

Modelling decisions. An octet is an integer below 256; masks by powers of two are written with division and
remainder, and exclusive or is defined bit by bit (`Bytes.XorBit`). A transport is an arbitrary function of the
call number and the size offered; a longer read or a larger count than offered is an over-report. The
application's reaction to `on_frame` is an arbitrary list of frames it queues. Well-formedness of UTF-8 is an
arbitrary predicate. Ghost fields record the bytes received, consumed, dropped and accepted and the chunks
delivered; they start over at `reset` and `reset_tx`, so every theorem speaks about the time since then.

Where code and comments differ, the model follows the code and states the exact condition.

- The comment at `src/c_api.zig:356` promises one transport read per call. `Witnesses.FifteenReads` is a call that
  makes fifteen, which is the bound proved. `Receive.OneReadIff` says exactly when a call that needs header bytes
  keeps to one read; `Endpoint.Endpoint.Recv` proves that a call that starts in the payload always does.
- Staged bytes that were copied out before a failed or over-reporting payload read are not put back
  (`src/c_api.zig:399-413`). `Endpoint.Endpoint.Recv` drops bytes exactly when `Receive.DropsStage` holds of the
  state before the call: the header completes in this call with some, but not enough, payload staged behind it,
  and the read for the rest faults. It then drops all of that stage and nothing else; if nothing was dropped
  before, the bytes received are the bytes consumed followed by the bytes dropped. Between calls nothing is staged
  behind a complete header, so a call that starts in the payload never drops a byte. `Witnesses.DroppedBytesCorrupt` is a run in which a dropped
  byte makes the receiver deliver a frame nobody sent; byte conservation and the end-to-end identity therefore
  hold while the ghost trace `lost` is empty.
- The encoder accepts a close frame of length one that the decoder rejects; `Codec.EncodeDecode` states both sides.

## Model

| member | source | states |
|---|---|---|
| `Bytes.XorBit` | src/frame.zig:76-83 | bit i of an exclusive or is set exactly when the operands differ in bit i |
| `Bytes.XorByteBit` | src/frame.zig:83-83 | a set key bit flips the bit of the octet, a clear one keeps it |
| `Bytes.BigEndianRead` | src/frame.zig:146-152 | a length written in network order in enough bytes reads back unchanged |
| `Bytes.BigEndianWrite` | src/frame.zig:23-34 | bytes read as a network-order length write back unchanged, and the value fits the width |
| `Bytes.XorWordLittle` | src/frame.zig:76-80 | combining two little-endian words is combining their bytes |
| `Bytes.XorWordBig` | src/frame.zig:76-80 | combining two big-endian words is combining their bytes |
| `Mask.MaskInvolution` | src/frame.zig:59-84 | masking twice with the same key and position restores the payload |
| `Mask.MaskOptSplit` | src/c_api.zig:420-427 | masking a buffer equals masking its parts at running offsets |
| `Mask.MaskOptSlice` | src/c_api.zig:504-514 | a slice of a masked payload is the slice masked from its own offset |
| `Mask.MaskAnyPartition` | src/frame.zig:59-84 | any partition masked piece by piece at running offsets is the whole payload masked |
| `Mask.XorWordIsBytewise` | src/frame.zig:66-80 | four- or eight-byte words in either byte order give one byte operation per octet |
| `Mask.MaskWords` | src/frame.zig:69-81 | the word loop masks whole words from the start, stops less than a word before the end and touches nothing else |
| `Mask.MaskTail` | src/frame.zig:83-83 | the byte loop finishes the remaining octets and touches nothing else |
| `Mask.MaskInPlace` | src/frame.zig:59-84 | a bit of octet i of the slice is flipped exactly where key octet (pos + i) mod 4 has a one, whatever the word size and byte order; the rest of the buffer is unchanged |
| `Codec.EncodeHeaderInto` | src/frame.zig:104-161 | succeeds exactly for an encodable header and a large enough buffer; the octets written are opcode plus 128 for fin, the seven length bits plus 128 for a mask, the length in network order and the key; otherwise writes nothing and reports the first failing check or a short buffer |
| `Codec.EncodeMeans` | src/frame.zig:104-161 | which headers are encoded, octet by octet, and which error every other header gets, in numerals |
| `Codec.DecodeMeans` | src/frame.zig:163-203 | which octets decode, the opcode, flags, length and key they decode to, and which error all others get, in numerals |
| `Codec.SizesMean` | src/frame.zig:42-102 | both header size computations in numerals |
| `Codec.LengthRoundTrip` | src/frame.zig:19-40 | the extended length of any payload length reads back as that length and its header size |
| `Codec.EncodeDecode` | src/frame.zig:104-203 | decoding an encoded header followed by any bytes returns every field, and fails exactly for a one-byte close |
| `Codec.DecodeEncode` | src/frame.zig:163-203 | re-encoding a decoded header gives the consumed bytes; announced size, serialized size, encoder size and header_len agree |
| `Codec.DecodeIgnoresTail` | src/frame.zig:163-203 | bytes after the header never change the decoder's verdict |
| `Codec.DecodeNeedsExactly` | src/frame.zig:42-56 | the decoder never succeeds on fewer bytes than announced and never asks for more than announced |
| `Codec.HeadersArePrefixFree` | src/frame.zig:104-161 | no encoded header is a prefix of a different one |
| `Ring.Ring.PushBack` | src/queue.zig:19-26 | appends to the abstract sequence, or fails exactly when the ring is full |
| `Ring.Ring.PushFront` | src/queue.zig:29-35 | prepends to the abstract sequence, or fails exactly when the ring is full |
| `Ring.Ring.PopFront` | src/queue.zig:38-46 | removes and returns the first item |
| `Ring.Ring.PopBack` | src/queue.zig:49-56 | removes and returns the last item |
| `Ring.Ring.Front` | src/queue.zig:59-68 | returns the first item without changing the ring |
| `Ring.Ring.SetFront` | src/queue.zig:59-62 | assignment through the head pointer replaces the first item only |
| `Ring.Ring.DiscardFront` | src/queue.zig:71-77 | drops the first item, nothing on an empty ring |
| `Ring.Ring.Clear` | src/queue.zig:80-84 | leaves the empty sequence |
| `Protocol.CloseRules` | src/frame.zig:206-219 | a close payload passes exactly when empty, or a permitted status code with a well-formed reason within 125 bytes |
| `Protocol.PrepareFrame` | src/event.zig:392-438 | succeeds exactly for the frames the numeric rules allow, with a fresh node whose header decodes to exactly the requested frame; otherwise reports the first failing check |
| `Protocol.PrepareMeans` | src/event.zig:369-412 | which frames may be prepared and the condition for every error, in numerals: opcode, frame and message limit, control rules, mask direction, key, close payload |
| `Protocol.AdmissionMeans` | src/event.zig:305-347 | which nodes may be queued, the open message after them and the condition for every error, in numerals |
| `Protocol.IncomingMeans` | src/event.zig:91-116 | which received headers pass and the condition for every error, in numerals |
| `Protocol.PreparedIsQueueable` | src/event.zig:305-347 | a prepared node passes every per-frame check of queueing; it can be refused only for fragment order or the message total, exactly when stated |
| `Protocol.AdmittedByPeer` | src/event.zig:91-116 | a node the sender admits is admitted by a peer in the same fragment state and both move to the same next state |
| `Protocol.TracksStep` | src/event.zig:325-346 | the fragment rules admit a frame exactly when the history stays grammatical and within limits, and the state then summarizes the longer history |
| `Protocol.IncomingIsNextFragment` | src/event.zig:159-178 | validating and committing a received frame is one step of the sender's fragment automaton |
| `Stream.HeaderGood` | src/event.zig:118-124 | an accepted header occupies the announced bytes, respects the frame limit and is masked exactly when received by a server |
| `Stream.ParseSplit` | src/c_api.zig:365-459 | parsing a stream cut anywhere, continuing from the unfinished tail, is parsing the whole stream |
| `Stream.ParseStops` | src/event.zig:127-157 | the parser leaves no complete frame behind and drops no byte |
| `Stream.RejectionIsFinal` | src/event.zig:118-157 | after a rejected header no later byte delivers a frame or changes the error |
| `Stream.ParsedIsGrammatical` | src/event.zig:159-203 | completed frames obey the message grammar and limits; the fragment state is the opcode and exact byte count of the open message, never above the limit |
| `Wire.KeyFromHeader` | src/event.zig:273-283 | the key taken from the last four header bytes and the opcode of the first byte are the decoder's |
| `Wire.ControlKeepsFragment` | src/event.zig:322-323 | a control frame is admitted in every fragment state or in none and never changes it |
| `Wire.AcceptInsertControl` | src/event.zig:354-366 | a control frame inserted at any frame boundary leaves the admission of the whole sequence unchanged |
| `Wire.ImageParses` | src/c_api.zig:474-553 | a peer recovers exactly opcode, fin and payload from a frame's wire image |
| `Wire.PartialImageWaits` | src/event.zig:127-157 | a proper part of an image is neither delivered nor rejected |
| `Wire.ImagesParse` | src/event.zig:305-366 | an accepted sequence of frames is parsed by the peer into exactly its frames in order |
| `Wire.PrefixParses` | src/event.zig:305-366 | any prefix of an accepted stream parses without rejection to a prefix of its frames |
| `Wire.AcceptIffGrammatical` | src/event.zig:305-347 | the sender accepts sound frames exactly when they obey the message grammar within the limits |
| `Wire.LegalOrderAppend` | src/event.zig:361-363 | appending an admitted frame keeps the wire order legal |
| `Wire.LegalOrderPreempt` | src/event.zig:349-363 | letting a ping or pong overtake at a frame boundary keeps the wire order legal, loses nothing and keeps the order of all other frames |
| `Wire.LegalOrderMeans` | src/event.zig:349-366 | in a legal order exactly the frames queued are sent, and the frames whose opcode is neither 9 nor 10 are sent in the order they were queued |
| `Wire.WireIsPrefix` | src/c_api.zig:474-553 | bytes on the wire are a prefix of the images of all frames, equal to them exactly when nothing is queued |
| `Wire.FinishedAreDelivered` | src/event.zig:233-242 | a peer that read everything on the wire has exactly the finished frames |
| `Connection.Init` | src/event.zig:79-89 | fails with InvalidLength exactly when a limit exceeds the wire format, otherwise returns a new connection at a frame boundary with no open message in either direction, an empty queue and an empty history |
| `Connection.PlacedIsLegal` | src/event.zig:349-366 | the place chosen for a new frame keeps the wire order legal and only the head started |
| `Connection.PlacedMeans` | src/event.zig:349-363 | a frame of opcode 9 or 10 goes first exactly when the queue is empty or its head has sent nothing; every other frame goes last |
| `Connection.Conn.AcceptHeader` | src/event.zig:118-124 | accepts or refuses the buffered header exactly as the reference parser does |
| `Connection.Conn.AdvanceRx` | src/event.zig:127-157 | the action is the reference parser's verdict on the bytes so far; need_header comes with a nonempty buffer; an error repeats for ever |
| `Connection.Conn.IsAtFrameBoundary` | src/event.zig:189-194 | in every valid state the four tests are true exactly when no header byte of the next frame has been read |
| `Connection.Conn.CompleteFrame` | src/event.zig:197-203 | succeeds exactly on a fully received frame, commits its fragment effect and returns to the boundary; fails without change otherwise |
| `Connection.Conn.ResetRx` | src/event.zig:206-209 | restores the initial receive state |
| `Connection.Conn.AdvanceHeaderRead` | src/event.zig:215-221 | succeeds exactly for a positive count within the header buffer, and never on a rejected header |
| `Connection.Conn.AdvancePayloadRead` | src/event.zig:223-230 | succeeds exactly for a positive count within the remaining payload |
| `Connection.Conn.AdvanceTx` | src/event.zig:233-242 | moves a finished head to the history, conserves the line of frames and names the next write |
| `Connection.Conn.GetTxHeaderBuffer` | src/event.zig:244-247 | returns the unsent header bytes of the head |
| `Connection.Conn.GetTxPayload` | src/event.zig:259-263 | returns the unsent payload of the head |
| `Connection.Conn.GetTxPayloadOffset` | src/event.zig:266-270 | returns the payload progress of the head |
| `Connection.Conn.GetTxMaskingKey` | src/event.zig:273-283 | returns the key of the head's header |
| `Connection.Conn.AdvanceTxHeader` | src/event.zig:249-256 | advances the head's header progress exactly within its bounds and keeps the wire order legal |
| `Connection.Conn.AdvanceTxPayload` | src/event.zig:286-293 | advances the head's payload progress exactly within its bounds and keeps the wire order legal |
| `Connection.Conn.ResetTx` | src/event.zig:300-303 | empties queue and fragment state |
| `Connection.Conn.ControlCanPreempt` | src/event.zig:349-352 | true exactly when the queue is empty or its head is unsent |
| `Connection.Conn.QueueFrame` | src/event.zig:355-366 | succeeds exactly when the node is admitted and the ring has room; opcodes 9 and 10 go before a head that has sent nothing, everything else goes last; any failure changes nothing |
| `Delivery.ChunkMetadata` | include/zslay.h:78-84 | in every delivered sequence offsets start at zero and are contiguous, lengths add up to frame_len, the end mark is set exactly on the last chunk and only empty frames have empty chunks |
| `Delivery.AgreesPayload` | src/c_api.zig:390-459 | each delivered chunk attaches with contiguous offset, exact length and end mark, and the last one completes the frame the parser sees |
| `Delivery.DeliveredIsParsed` | src/c_api.zig:357-463 | between calls the delivered frames are exactly those the one-shot parser finds in the consumed bytes |
| `Endpoint.Endpoint.CallOnFrame` | src/c_api.zig:195-226 | delivers one chunk; the queue and the codes afterwards are those of queueing the application's frames in order, none refused as reentrant |
| `Endpoint.ReactOnlyAdds` | src/c_api.zig:195-226 | whatever is queued from the callback, frames are only added and a started head stays the head |
| `Endpoint.Endpoint.QueueFrame` | src/c_api.zig:652-680 | reentrant exactly inside a callback other than on_frame of this connection; otherwise the code of the first rule the frame breaks, queue full exactly when it breaks none and there is no room, or success with opcodes 9 and 10 before a head that has sent nothing and all others last; keeps wire trace and chunk cache in agreement |
| `Endpoint.QueueCodes` | src/c_api.zig:652-680 | the condition for every code of queueing, in numerals |
| `Receive.HeaderReadBounds` | src/c_api.zig:365-389 | the header phase ends with a complete header or an empty stage, and every read but the last is paid for with a header byte |
| `Receive.HeaderInHand` | src/c_api.zig:371-386 | header bytes and staged bytes count as one string: if it holds a complete header no read is made and the rest stays staged, otherwise the stage is used up before the first read |
| `Receive.PlanBounds` | src/c_api.zig:356-463 | a call makes at most one read per missing header byte and one more, one read once the header is complete, and delivers at most one chunk; OK consumes and stages nothing |
| `Receive.PlanProgress` | src/c_api.zig:357-463 | a call that reports progress has consumed at least one byte |
| `Receive.DropsExactly` | src/c_api.zig:399-413 | a call drops bytes exactly when the header completes with too little payload staged and the read for the rest faults, and then drops that whole stage |
| `Receive.OneReadIff` | src/c_api.zig:356-418 | a call that needs header bytes keeps to one read exactly when the bytes in hand complete the header, or the first read moves nothing, brings a rejected header, or brings the header and all payload the call asks for |
| `Receive.SlowestCall` | src/c_api.zig:365-418 | over a transport that returns single bytes one call reads every header byte separately and then one payload byte |
| `Receive.PlanSplit` | src/c_api.zig:362-463 | the effect of a call is the effect of its header phase followed by that of its payload phase |
| `Endpoint.Endpoint.TakeHeader` | src/c_api.zig:381-386 | moves as many staged bytes as the header needs, in order, and keeps agreement with the parser |
| `Endpoint.Endpoint.GatherChunk` | src/c_api.zig:395-418 | takes staged bytes then at most one read, as the reference payload step does; a read that faults drops exactly the staged bytes |
| `Endpoint.Endpoint.Announce` | src/c_api.zig:429-442 | delivers the chunk for the bytes in hand, books exactly these bytes and completes the frame when they end it, keeping agreement with the parser |
| `Endpoint.Endpoint.EmitEmpty` | src/c_api.zig:444-459 | reached only for empty frames, delivers one empty end chunk and completes the frame |
| `Endpoint.Endpoint.RecvHeaders` | src/c_api.zig:365-389 | the header loop stops where the reference header phase stops, with the same bytes taken, staged and read; at most one read per missing header byte |
| `Endpoint.Endpoint.Recv` | src/c_api.zig:357-463 | does exactly what the reference call does: code, bytes consumed, dropped and staged, chunk and reads; at most 15 reads and one chunk, one read when started in the payload; OK only when the transport had nothing, with nothing staged and both directions unchanged; progress consumes bytes; protocol error exactly when the header is rejected, then without further reads; bytes dropped exactly when the stated condition holds before the call; the application can only add frames |
| `Endpoint.Endpoint.FillChunk` | src/c_api.zig:504-514 | the refilled cache is the masked slice of the head's unsent payload |
| `Endpoint.Endpoint.CachedSlice` | src/c_api.zig:516-532 | the next cached bytes are the next bytes of the head's wire image, and cache and head stay in agreement as both advance |
| `Endpoint.Endpoint.SendHeader` | src/c_api.zig:481-494 | offers the rest of the head's header and books what was accepted, or stops without change |
| `Endpoint.Endpoint.SendMasked` | src/c_api.zig:498-532 | offers the rest of the current 4096 masked payload bytes and books what was accepted, or stops keeping the cache |
| `Endpoint.Endpoint.SendPlain` | src/c_api.zig:533-547 | offers the rest of the payload, at most 65536 bytes and at most the rest of the budget, and books what was accepted, or stops without change |
| `Endpoint.Endpoint.CacheOffer` | src/c_api.zig:516-517 | a cached chunk ends at a multiple of 4096 payload bytes or at the end of the payload |
| `Endpoint.Endpoint.Send` | src/c_api.zig:466-554 | does exactly what the reference call does: code, queue, writes and bytes; at most 64 writes, 262144 bytes for a client and 262153 for a server; PROGRESS only when 64 writes or 262144 bytes are used up and frames remain; OK only when drained or blocked; frames neither lost, altered nor reordered; never a protocol error |
| `Transmit.PlanSendBounds` | src/c_api.zig:474-553 | the reference call reports progress only with a budget used up and frames left, OK only when nothing is left or the last write was declined, and every other write moves a byte |
| `Endpoint.Endpoint.BacklogIsWhatRemains` | include/zslay.h:145-151 | unsent wire bytes are never negative and zero exactly when the queue is empty |
| `Endpoint.Endpoint.Drain` | include/zslay.h:145-151 | on a transport that never blocks, repeated sends drain the queue within one call per 64 bytes of backlog and one more |
| `Endpoint.Endpoint.Reset` | src/c_api.zig:557-564 | refused in a callback, otherwise receive state, staging and fragment are as after initialization |
| `Endpoint.Endpoint.ResetTx` | src/c_api.zig:567-574 | refused in a callback, otherwise queue, fragment and cached chunk are empty |
| `Endpoint.Endpoint.TxPending` | src/c_api.zig:577-583 | counts exactly the frames with bytes left to send |
| `Endpoint.Endpoint.PrepareFrame` | src/c_api.zig:586-649 | invalid argument for a malformed flag or opcode, otherwise the code of the first rule the frame breaks, otherwise a callback error exactly when the mask callback fails, otherwise a node for the requested frame; no node on failure; restores the callback state around the mask callback |
| `Endpoint.Endpoint.PrepareCodes` | src/c_api.zig:586-649 | the condition for every code of preparing, in numerals |
| `Endpoint.Init` | src/c_api.zig:286-341 | succeeds exactly outside callbacks with valid limits and a mask callback for clients, returning an idle endpoint that satisfies the invariant, outside every callback, with empty traces and owning only new objects besides its transport and storage |
| `EndToEnd.ReceivedIsParsed` | src/c_api.zig:357-463 | delivered chunks reassemble to the parse of the consumed bytes, obey the grammar; bytes taken plus stage are the bytes received, and bytes taken are the bytes consumed unless some were dropped |
| `EndToEnd.SentIsWholeFrames` | src/c_api.zig:474-553 | accepted bytes are whole images of finished frames and part of the head; exactly the frames queued are in that line, and all that are neither ping nor pong in the order they were queued |
| `Witnesses.DroppedBytesCorrupt` | src/c_api.zig:399-413 | a run of the receiver that drops one staged payload byte and delivers a frame that differs from the one in the bytes received |
| `Witnesses.FifteenReads` | src/c_api.zig:356-418 | a run in which a single receive call makes fifteen transport reads |
| `EndToEnd.EndToEndIdentity` | src/c_api.zig:357-554 | the peer rejects nothing, delivers a prefix of the sent frames, and exactly the finished ones once it has consumed, or received and unstaged, everything sent |
| `EndToEnd.Perform` | src/c_api.zig:356-680 | recv with any reaction, send, queue, reset and reset_tx each keep the endpoint invariant |
| `EndToEnd.AnyRun` | src/c_api.zig:356-680 | after any interleaving of calls on both endpoints the end-to-end identity holds |
| `EndToEnd.ConnectedRun` | src/c_api.zig:286-680 | two endpoints made by the initializer on one thread, over different transports and storages, satisfy the end-to-end identity after any interleaving of calls |
| `Reentrancy.EnterFromOnFrame` | src/c_api.zig:120-122 | whatever gets in from inside a callback does so from on_frame of the same connection and keeps the protocol |
| `Reentrancy.EveryRunIsGood` | src/c_api.zig:169-226 | every nesting of calls and callbacks keeps the stack in one of the protocol's shapes |
| `Reentrancy.GuardExactly` | src/c_api.zig:120-122 | in every run an entry point gets in exactly when nothing is active, or it is the pending query, or it is prepare or queue inside on_frame of the same connection; otherwise nothing changes |
| `Reentrancy.CallbacksExactly` | src/c_api.zig:169-226 | exactly which callbacks each entry point makes, and the depth and state they run with |
| `Reentrancy.ReturnRestores` | src/c_api.zig:169-226 | returning from any call or callback restores depth, stack and the state of every connection, also from gen_mask inside on_frame |
| `Reentrancy.DepthTwoHappens` | src/c_api.zig:92-93 | depth two is reached by preparing a masked answer inside on_frame |
| `Reentrancy.DepthCountsCallbacks` | src/c_api.zig:92-93 | in every run the depth is the number of active callbacks, at most two, and two only for gen_mask inside on_frame of the same connection |
| `Reentrancy.CallbacksReachOnlyQueueing` | src/c_api.zig:346-359 | in every run only prepare, queue and the pending query run under a callback, so receive state, staging and head progress are out of reach |
| `Reentrancy.GuardLetsGo` | src/c_api.zig:185-193 | with nothing active no connection stays marked and every entry point is open |

## Left out

- UTF-8 validation: a library routine outside this repository; it is an arbitrary predicate here.
- Pointer casts, alignment, the magic number, ABI version and size exports: raw memory representation.
- Address-overlap checks of nodes, payloads and ring slots: borrowed payloads are immutable sequences here.
- zslay_conn_deinit: resets both directions and retires the handle; only its guard is modelled.
- zslay_validate_close_payload: a one-branch wrapper around the close payload rules.
- Thread safety and the closing handshake: the library serializes calls per handle by contract and tracks no close state.
- The echo server, the benchmarks and the scripts: they drive the library from outside.
- EndToEndIdentity: speaks about runs in which no staged byte was dropped by a failed payload read, because the code does not put such bytes back.
