# Verified model of the media stack's core machinery

This project models, in Dafny, the byte-level and step-level machinery that the WebRTC media stack
rests on, and proves what that machinery promises:

- **The variable-record ring** (`data_queue.c`): `DataQueueSpec` gives each operation on plain values
  and shows that size headers, early wrap and derived read position make the ring a FIFO of byte
  blocks; `DataQueue` is the class over a byte array, one method for each critical section;
  `DataQueueThreads` runs one writer, one reader and one caller of `data_queue_wakeup` step by step,
  with raw pointers used outside the lock and with waiting and clearing a bit as separate steps.
- **The DTLS ClientHello reassembly BIO** (`dtls_common.h`; sections 4.2.2 and 4.2.3 of RFC 6347):
  `ClientHelloSpec` on values, `ClientHelloBio` with header, body and bit mask in one heap buffer.
- **Chunked video and the pause handshake** (`esp_webrtc.c`): `VideoChunkSpec`, `VideoChannel`,
  `VideoLoss`, `PauseHandshake`.
- **Renderer framing and buffer ownership** (`av_render.c`): `RenderFraming`, `FrameFifo` (the
  zero-copy path on the ring class), `ZeroCopyRuns` (the same over whole runs), `RenderPool`.
- **Board configuration** (`cfg_parse.c`): `BoardConfig`. **YUV to RGB565** (`color_convert.c`):
  `ColorConvert`. **Message queue** (`msg_q.c`): `MsgQueue`, `MsgQueueThreads`. **RTP wrap/unwrap**
  (`doorbell_local/main/webrtc.c`): `RtpTransform`.
- `Bytes` and `Arith` hold the byte-order and arithmetic facts they share.

Code that updates fields or buffers is a class or a method with the source's loops, proved equal to a
function on values (`View()` is the value a class stands for); the properties are lemmas about those
functions, and the thread modules lift them to every interleaving. `dafny verify dfyconfig.toml`
checks everything.

What the proofs say about the code, where it is not what one might expect:

- `data_queue_consume_all` crashes on purpose when the queue is a single record as large as the
  buffer, because its check uses `>=` where the others use `>`, and in no other case; one granted and
  sent block is enough to get there.
- One `data_queue_peek_unlock` can leave `data_queue_wakeup` waiting for ever: exactly when it is the
  last user's and comes after wakeup cleared the bit. Without it, a wakeup that waits on a clear bit
  always has a user left who will signal.
- A sendable video frame above 512 KiB is sent and never delivered. Under loss a frame whose first
  chunk arrived is delivered whole or not at all; without it, its END chunk can deliver a splice with
  earlier frames, of the right length. The receiver follows the 7-bit numbers of the code, not the
  older comment on a start flag at `components/esp_webrtc/include/esp_webrtc.h:64`.
- With `quit_when_eos` a pool buffer can be lost: one that is enqueued after the decoder's last test
  for emptiness, unless another decoder thread takes that queue over before it is torn down.
- `parse_cfg` never returns when the first section lacks its `}` and its name is not one of the eight
  that fill a table; with such a name it returns -1. A section named `Board` ends the board.
- `convert_color` does not check that sizes are even: with buffers just large enough, any other
  non-empty size makes it leave them, except width 2.
- In 32 bits the RTP size callback reads up to four bytes before a frame that claims a payload of
  2^32 - 20 to 2^32 - 17 bytes. It accepts some frames that claim 2^32 - 16 or more, and if
  such a frame has the tail mark the transform would move nearly 2^32 bytes.
- The colour table takes the low bits of `u` from the luma index; the error bound holds all the same.

## Model

| member | source | states |
|---|---|---|
| DataQueueSpec.EmptinessTestsAgree | components/media_lib_utils/src/data_queue.c:92-103 | In every valid ring the two emptiness tests (`wp == rp && !fill_end`, and `filled == 0`) agree with each other and with the queue of blocks being empty, and the blocks with their headers add up to exactly `filled` |
| DataQueueSpec.GrantsIff | components/media_lib_utils/src/data_queue.c:225-259 | The exact condition under which one pass of get_buffer succeeds: the whole buffer for an empty queue whatever `wp` is, the gap when wrapped, else the end of the buffer or, failing that, the front |
| DataQueueSpec.WrapKeepsQueue | components/media_lib_utils/src/data_queue.c:234-246 | Wrapping early keeps the ring valid, the bytes, `filled`, the queued blocks and the oldest record's position |
| DataQueueSpec.FailedPass | components/media_lib_utils/src/data_queue.c:236-252 | A pass that fails leaves a wrapped, non-empty queue, so that only the reader can help |
| DataQueueSpec.ReportedSpaceNeverBlocks | components/media_lib_utils/src/data_queue.c:202-223 | Every positive size that data_queue_get_available reports is granted in one pass |
| DataQueueSpec.ReportIsSharp | components/media_lib_utils/src/data_queue.c:202-223 | And one byte more is refused, unless the next pass would wrap into a larger gap in front of the oldest record; an empty queue reports the whole buffer less the header wherever it is empty |
| DataQueueSpec.ReservedRegionIsFree | components/media_lib_utils/src/data_queue.c:188-200 | The space reported as available, header included, lies inside the buffer and meets no unread record |
| DataQueueSpec.ReservedAvoidsOldest | components/media_lib_utils/src/data_queue.c:188-200 | The reserved region and the record the reader holds are disjoint |
| DataQueueSpec.StoreKeepsQueue | components/media_lib_utils/src/data_queue.c:245-250 | Any store by the writer into its reserved region leaves all queued blocks and the available space as they were |
| DataQueueSpec.CommitAppends | components/media_lib_utils/src/data_queue.c:286-298 | Sending n bytes appends exactly the n bytes behind the header to the queue of blocks and keeps the headers tiling the ring |
| DataQueueSpec.DerivedReadPosIsOldest | components/media_lib_utils/src/data_queue.c:338-355 | The position read_lock derives from `filled`, `wp` and `fill_end` is `rp`; the header found there and the bytes behind it are those of the oldest block |
| DataQueueSpec.PopRemovesOldest | components/media_lib_utils/src/data_queue.c:373-398 | read_unlock removes exactly the oldest block, `filled` drops, no byte becomes live and the writer's available space never shrinks |
| DataQueueSpec.DrainEmpties | components/media_lib_utils/src/data_queue.c:138-162 | Consuming record after record terminates with an empty queue, nothing live, and no less space for the writer |
| DataQueueSpec.TrapIffWholeBuffer | components/media_lib_utils/src/data_queue.c:147-150 | The size check of consume_all trips if and only if the queue is one record as large as the buffer |
| DataQueueSpec.QueueSizes | components/media_lib_utils/src/data_queue.c:400-425 | Payload bytes plus 4 per block equal `filled` |
| DataQueueSpec.BlockedWriterIsServed | components/media_lib_utils/src/data_queue.c:225-259 | A request that fits the buffer with its header is granted after at most as many rounds of read_unlock and retry as there are queued records |
| DataQueue.DataQueue.constructor | components/media_lib_utils/src/data_queue.c:105-121 | A new queue is valid and empty, with all bits clear |
| DataQueue.DataQueue.ReportAvailable | components/media_lib_utils/src/data_queue.c:202-223 | Returns get_available's value, all of which can be had without waiting |
| DataQueue.DataQueue.GetBuffer | components/media_lib_utils/src/data_queue.c:225-259 | One pass in place: NULL, a pointer with the requested room, or a wait, exactly by the grant condition; the queued blocks do not change; a wait means a non-empty queue that still refuses |
| DataQueue.DataQueue.Fill | components/media_lib_utils/src/data_queue.c:245-250 | The writer's own stores through its pointer change neither the blocks nor the available space |
| DataQueue.DataQueue.SendBuffer | components/media_lib_utils/src/data_queue.c:272-309 | 0 cancels; otherwise it succeeds if and only if size and header fit, and then appends exactly the bytes at the pointer; user count and bits as in the source |
| DataQueue.DataQueue.ReadLock | components/media_lib_utils/src/data_queue.c:325-359 | Yields exactly the oldest block's bytes and size; the self-check on the size never fires; no data if and only if the queue is empty |
| DataQueue.DataQueue.PeekUnlock | components/media_lib_utils/src/data_queue.c:361-371 | Drops the user count and signals nobody |
| DataQueue.DataQueue.ReadUnlock | components/media_lib_utils/src/data_queue.c:373-398 | The queue loses its oldest block and nothing else; the self-check never fires; on an empty queue nothing changes, not even the user count |
| DataQueue.DataQueue.ConsumeAll | components/media_lib_utils/src/data_queue.c:138-162 | Traps if and only if the queue is one buffer-sized record and quit is not set; otherwise, without quit, the queue ends empty |
| DataQueue.DataQueue.Query | components/media_lib_utils/src/data_queue.c:400-425 | The header walk terminates, returns the number of blocks and of payload bytes, and bytes + 4 * num == filled |
| DataQueueThreads.RunIsFifo | components/media_lib_utils/src/data_queue.c:188-398 | Over every interleaving of writer, reader and wakeup: consumed blocks are a prefix of the sent ones, the rest is what the ring holds, and the reader's raw pointer shows exactly the next block in order |
| DataQueueThreads.TrapIsReachable | components/media_lib_utils/src/data_queue.c:147-150 | In a queue of any usable size a run of one grant and one send reaches the state in which consume_all crashes |
| DataQueueThreads.StepInv | components/media_lib_utils/src/data_queue.c:54-136 | Every step, including each half of a wait, keeps: reserved region intact, reader's block intact, user count exact, and no lost wake-up (parked on a clear bit means no data / no room, and no quit) |
| DataQueueThreads.StoreInv | components/media_lib_utils/src/data_queue.c:225-309 | A store through the writer's pointer at any moment keeps the whole invariant, including what the reader sees |
| DataQueueThreads.SendWithinRequestSucceeds | components/media_lib_utils/src/data_queue.c:272-309 | In any reachable state sending at most the requested size succeeds and appends what the writer stored |
| DataQueueThreads.NeverBothStuck | components/media_lib_utils/src/data_queue.c:54-90 | Reader and writer are never both parked on clear bits |
| DataQueueThreads.BlockedWriterBound | components/media_lib_utils/src/data_queue.c:225-259 | However the run goes, a waiting writer outlasts at most as many read_unlocks as there were blocks; after the last one its next pass is granted and it is not parked on a clear bit |
| DataQueueThreads.WriterGetsWhatIsGranted | components/media_lib_utils/src/data_queue.c:225-259 | A pass of get_buffer, the first or one after a wait, ends with NULL only for quit or a request that cannot fit, otherwise with a pointer for the requested size exactly when it is granted, and parked exactly when not |
| DataQueueThreads.WriterNeverGivesUp | components/media_lib_utils/src/data_queue.c:234-255 | A writer becomes idle only through its own send or a shutdown, and until then keeps the size it asked for |
| DataQueueThreads.GrantedWriterIsServed | components/media_lib_utils/src/data_queue.c:225-259 | On every run without a shutdown, a waiting writer whose request is granted holds a pointer for it after at most three steps of its own; reading never takes the grant away |
| DataQueueThreads.ReaderGetsWhatIsThere | components/media_lib_utils/src/data_queue.c:325-359 | A pass of read_lock ends with -1 only for quit, otherwise with exactly the oldest block when there is one, and parked exactly when there is none |
| DataQueueThreads.ReaderNeverGivesUp | components/media_lib_utils/src/data_queue.c:332-356 | A reader becomes idle only by giving its block back or through a shutdown |
| DataQueueThreads.ReaderIsServed | components/media_lib_utils/src/data_queue.c:325-359 | A waiting reader holds a block after at most three steps of its own once one has been sent |
| DataQueueThreads.WhoSignals | components/media_lib_utils/src/data_queue.c:54-136 | Which steps set and clear each event bit, exactly |
| DataQueueThreads.WakeupReturnsIffUnused | components/media_lib_utils/src/data_queue.c:123-136 | data_queue_wakeup sets quit and returns exactly when no thread waits or holds a pointer |
| DataQueueThreads.HoldsEnd | components/media_lib_utils/src/data_queue.c:272-398 | Send, cancel, unlock and peek end the hold; a cancel and a peek change neither ring nor logs |
| DataQueueThreads.ConsumeAllTakesAll | components/media_lib_utils/src/data_queue.c:138-162 | Without quit every sent block is taken and the queue is empty; with quit nothing happens |
| DataQueueThreads.StrandedOnlyAfterPeek | components/media_lib_utils/src/data_queue.c:123-136 | A wakeup parked on a clear bit with no users left implies a peek_unlock since it began |
| DataQueueThreads.StrandedIffLosingPeek | components/media_lib_utils/src/data_queue.c:123-136 | A run leaves wakeup waiting for ever if and only if one of its steps is a peek_unlock by the last user after wakeup has cleared the USER_FREE bit and waits again |
| DataQueueThreads.PeekCanStrandWakeup | components/media_lib_utils/src/data_queue.c:361-371 | For every buffer above 4 bytes there is a run in which one peek_unlock leaves wakeup parked with no users |
| DataQueueThreads.StrandedForever | components/media_lib_utils/src/data_queue.c:123-136 | From such a state wakeup never returns, whatever follows |
| ClientHelloSpec.ReassemblyExact | components/esp_peer/src/dtls_common.h:361-462 | For every order, overlap and duplication of the fragments of one message, mixed with rejected fragments and non-DTLS datagrams, after any unrelated assembly: a record is produced if and only if coverage completes with this datagram, and it is the rebuilt record of the message |
| ClientHelloSpec.GatherStep | components/esp_peer/src/dtls_common.h:383-419 | One fragment extends coverage by exactly its bytes, and produces the record exactly when that completes it |
| ClientHelloSpec.NoiseChangesNothing | components/esp_peer/src/dtls_common.h:422-447 | A rejected fragment or a non-DTLS datagram changes no state and is not reported as ready |
| ClientHelloSpec.FirstByteWins | components/esp_peer/src/dtls_common.h:361-462 | For every run of datagrams (fragments that disagree, rejected ones, failing allocations, restarts, foreign datagrams, whole records): while a message is being assembled, its header and each covered byte come from the first fragment that had them since the assembly began, and it has been open ever since |
| ClientHelloSpec.FinishedOfFirstBytes | components/esp_peer/src/dtls_common.h:333-419 | The record rebuilt when a fragment completes the message is made of exactly those first bytes |
| ClientHelloSpec.HandleCases | components/esp_peer/src/dtls_common.h:422-462 | A datagram is rejected and changes nothing, or resets the assembly, or is merged into the assembly of its number and length or into a blank one, which finishes exactly when every byte is covered |
| ClientHelloSpec.WholeDatagramIsQueued | components/esp_peer/src/dtls_common.h:453-461 | A complete DTLS record that is no ClientHello fragment becomes pending with everything behind it in the datagram, same length, byte for byte but for the version rewrite, if it is at most 4096 bytes and memory can be had; else -1, and what was pending stays |
| ClientHelloSpec.IgnoredIff | components/esp_peer/src/dtls_common.h:422-461 | Exactly when a datagram is reported as ignored (-1) |
| ClientHelloSpec.NoEffect | components/esp_peer/src/dtls_common.h:422-451 | Read off its bytes: a foreign or cut-off datagram or a fragment that does not fit changes nothing, and is -1 only outside an assembly |
| ClientHelloSpec.PartIsCarried | components/esp_peer/src/dtls_common.h:371-381 | A fragment record built from any proper part of a message, as section 4.2.2 of RFC 6347 lays it out, is recognised as carrying exactly that part |
| ClientHelloSpec.FinishedReparses | components/esp_peer/src/dtls_common.h:306-359 | The finished record parses as one unfragmented ClientHello with the same message number, length and body except for the feff to fefd version rewrite, and normalising it again changes nothing (section 4.2.2 of RFC 6347) |
| ClientHelloSpec.FinishedBytes | components/esp_peer/src/dtls_common.h:333-359 | The finished record byte by byte: type, version, epoch and sequence number of the first fragment, and the message, but for the version rewrite |
| ClientHelloSpec.HandleValid | components/esp_peer/src/dtls_common.h:422-462 | Every datagram keeps the BIO valid; an assembly that stays open lacks some byte; 1 is returned only with a datagram pending |
| ClientHelloSpec.BioRecvWhole | components/esp_peer/src/dtls_common.h:491-530 | One call pulls at most eight datagrams and returns one whole pending datagram, or an error that consumes nothing: never a slice |
| ClientHelloSpec.BioRecvEnds | components/esp_peer/src/dtls_common.h:491-530 | How a call ends with nothing pending: WANT_READ after eight datagrams or all there are; the callback's own error as it is, never as WANT_READ; or the first datagram that is ready, served whole if it fits |
| ClientHelloSpec.PendingIsServedFirst | components/esp_peer/src/dtls_common.h:499-501 | With a datagram pending nothing is received: it is served, or BUFFER_TOO_SMALL |
| ClientHelloSpec.RetryServes | components/esp_peer/src/dtls_common.h:471-489 | After BUFFER_TOO_SMALL a later call with enough room returns the very same datagram |
| ClientHelloSpec.PullFeeds | components/esp_peer/src/dtls_common.h:503-527 | The receive loop is the run of its datagrams, cut at the first that is ready |
| ClientHelloSpec.BioServesClientHello | components/esp_peer/src/dtls_common.h:422-530 | Fragments that complete a ClientHello within one call's eight datagrams are served by that call as the unfragmented record, and the heap buffer is released |
| ClientHelloSpec.BioServesWhole | components/esp_peer/src/dtls_common.h:491-530 | One call with room serves a whole datagram of several records as it came, but for the version rewrite |
| ClientHelloBio.LayoutDisjoint | components/esp_peer/src/dtls_common.h:250-276 | Body byte and mask bit of every offset lie behind the header and within the allocated size; no two offsets share a bit; body and mask never meet |
| ClientHelloBio.WithBitSetsOne | components/esp_peer/src/dtls_common.h:402-411 | Setting mask bit k changes bit k of the byte only |
| ClientHelloBio.MarkSetsCell | components/esp_peer/src/dtls_common.h:402-411 | Setting the mask bit and storing the byte of an unmarked offset changes the covered byte of that offset only |
| ClientHelloBio.Bio.EnsureMsgBuf | components/esp_peer/src/dtls_common.h:255-276 | Fails exactly for length 0, above 4096 or without memory, changing nothing; otherwise header, body and mask fit the capacity, also after a restart with another length |
| ClientHelloBio.Bio.CopyFragment | components/esp_peer/src/dtls_common.h:400-411 | The byte loop realises first-byte-wins merging on buffer and mask, and ch_got stays the number of set mask bits |
| ClientHelloBio.Bio.Finish | components/esp_peer/src/dtls_common.h:333-359 | The buffer then holds exactly the rebuilt record as the pending datagram |
| ClientHelloBio.Bio.AddFragment | components/esp_peer/src/dtls_common.h:361-419 | -1 exactly when the specification rejects the fragment, and then nothing changes; otherwise the specified merge, restart or finish |
| ClientHelloBio.Bio.QueueDatagram | components/esp_peer/src/dtls_common.h:278-298 | Copies a datagram of 1 to 4096 bytes whole, growing the buffer if needed; otherwise -1 and no change |
| ClientHelloBio.Bio.HandleDatagram | components/esp_peer/src/dtls_common.h:422-462 | The code on the heap buffer does exactly what the specification does on values, including the return code |
| ClientHelloBio.Bio.ServePending | components/esp_peer/src/dtls_common.h:471-489 | Hands out the whole pending datagram or, when the caller's buffer is too small, nothing |
| ClientHelloBio.Bio.BioRecv | components/esp_peer/src/dtls_common.h:491-530 | Result, pulls and new state are those of the specification, after at most eight pulls |
| VideoChunkSpec.RoundTrip | components/esp_webrtc/src/esp_webrtc.c:151-309 | For every chunk size, every sendable frame and every prior receiver state, the sent chunks deliver the frame once and byte for byte if and only if it is at most 512 KiB; a larger one delivers nothing |
| VideoChunkSpec.ChunkOnTheWire | components/esp_webrtc/src/esp_webrtc.c:186-200 | A chunk byte by byte: number and END bit, the length most significant byte first, the payload |
| VideoChunkSpec.NoMemoryIff | components/esp_webrtc/src/esp_webrtc.c:276-296 | Exactly when a chunk runs out of memory, and that frame and buffer are then given up |
| VideoChunkSpec.GrownByDoubling | components/esp_webrtc/src/esp_webrtc.c:282-289 | The new capacity is the least doubling, once or more, of the old one or of 10000 that is enough, capped |
| VideoChunkSpec.ConfiguredSizeIsUsed | components/esp_webrtc/src/esp_webrtc.c:138-142 | A configured chunk size is the one used, and 0 stands for 10000 |
| VideoChunkSpec.DeliveredFramesAreWhole | components/esp_webrtc/src/esp_webrtc.c:241-309 | For every stream of messages with any allocation failures, a delivered frame is the concatenation of accepted payloads numbered 0..E since the last 0, with END on the last only, and there is one such reading of the stream |
| VideoChunkSpec.WholeFramesAreDelivered | components/esp_webrtc/src/esp_webrtc.c:241-309 | Conversely, while memory lasts, every such run of chunks within the cap is delivered, and as that concatenation |
| VideoChunkSpec.LossCanSplice | components/esp_webrtc/src/esp_webrtc.c:259-274 | Losing the end of one two-chunk frame a and the start of the next, b, delivers the start of a joined to the end of b; that is a if and only if the ends agree, and b if and only if the starts agree |
| VideoLoss.LossyDelivery | components/esp_webrtc/src/esp_webrtc.c:151-309 | For any frames sent, any chunks of them lost and any allocation failures: what is delivered at the END chunk of frame f has f's length and consists of sent pieces, each in its own place; they are all f's if and only if f's first chunk arrived, and then it is f; otherwise it equals f only where the pieces are the same bytes |
| VideoLoss.LossyDeliveryIff | components/esp_webrtc/src/esp_webrtc.c:241-309 | While memory lasts something is delivered if and only if the latest arrivals are numbered 0..E with END on the last only and f fits 512 KiB |
| VideoLoss.DeliveredIffAllArrived | components/esp_webrtc/src/esp_webrtc.c:241-309 | Once f's first chunk has arrived, f's END chunk delivers f if all its chunks arrived and it fits, and nothing otherwise |
| VideoLoss.ChunkCarriesPiece | components/esp_webrtc/src/esp_webrtc.c:183-213 | Chunk k carries piece k of the frame under number k, with END on the last only |
| VideoChunkSpec.LengthOkExact | components/esp_webrtc/src/esp_webrtc.c:250-256 | The 32-bit length check is exact in spite of wrap-around |
| VideoChunkSpec.Grown | components/esp_webrtc/src/esp_webrtc.c:282-289 | The doubling loop terminates with room for what is needed and at most 512 KiB |
| VideoChunkSpec.ReceiveValid | components/esp_webrtc/src/esp_webrtc.c:241-309 | Every message keeps joined size <= capacity <= 512 KiB and the expected number in range |
| VideoChannel.ChunkCountCheck | components/esp_webrtc/src/esp_webrtc.c:162-168 | The rounded-up division refuses exactly the frames that 128 chunks cannot hold |
| VideoChannel.Channel.SendVideo | components/esp_webrtc/src/esp_webrtc.c:151-215 | All the specified chunks in order if and only if the peer takes them all, otherwise those it took and an error; none if and only if the frame is unsendable or memory for the buffer cannot be had |
| VideoChannel.Channel.HandleChunk | components/esp_webrtc/src/esp_webrtc.c:241-309 | The code on the reused receive buffer does exactly what the specification does on values |
| VideoChannel.Channel.Grow | components/esp_webrtc/src/esp_webrtc.c:282-299 | Growing keeps the bytes joined so far |
| PauseHandshake.StepInv | components/esp_webrtc/src/esp_webrtc.c:480-998 | Every step of the peer thread and its controller keeps the handshake invariant, stale bits included |
| PauseHandshake.EveryRunIsSafe | components/esp_webrtc/src/esp_webrtc.c:695-717 | On every run a paused pc_task is parked, the main loop runs on a live peer only, pc_close frees the peer only once pc_task has left its loop, no stale PAUSED or EXIT bit survives into a new pause, and no resume is lost: unpaused and uncontrolled, a live pc_task can go on |
| PauseHandshake.PauseHoldsUntilResume | components/esp_webrtc/src/esp_webrtc.c:480-495 | From the return of BYE's wait until the controller resumes, pc_task takes no step at all, over any run |
| PauseHandshake.ByeEntersPausedSection | components/esp_webrtc/src/esp_webrtc.c:868-893 | BYE's wait returns only into a paused section |
| PauseHandshake.BlockedMeansTaskMoves | components/esp_webrtc/src/esp_webrtc.c:480-495 | While the controller waits only pc_task can move, it can, and each step brings the wait's end closer |
| PauseHandshake.WaitsEnd | components/esp_webrtc/src/esp_webrtc.c:695-717 | So every wait for PAUSED or EXIT ends after at most five steps of pc_task |
| PauseHandshake.ResumeIsSignalled | components/esp_webrtc/src/esp_webrtc.c:883-890 | BYE with automatic reconnect, and enabling while paused, lower the pause flag, and the only step that can follow sets RESUME |
| PauseHandshake.ByeWithoutReconnectStaysPaused | components/esp_webrtc/src/esp_webrtc.c:880-892 | BYE without automatic reconnect leaves pc_task paused |
| PauseHandshake.TaskReachesMainLoop | components/esp_webrtc/src/esp_webrtc.c:480-495 | Unpaused and left alone, pc_task can always go on and is in the main loop after at most four steps of its own, whatever else happens |
| PauseHandshake.ByeReachesSection | components/esp_webrtc/src/esp_webrtc.c:868-893 | BYE on a running peer is in its paused section after at most seven more steps of anyone |
| PauseHandshake.CloseEndsWithoutPeer | components/esp_webrtc/src/esp_webrtc.c:695-717 | pc_close on a live peer has freed it, with pc_task gone, by its sixth own step |
| PauseHandshake.CloseCanGoOn | components/esp_webrtc/src/esp_webrtc.c:695-717 | In the middle of pc_close the controller can go on, or it waits and pc_task can |
| PauseHandshake.StartedTaskRuns | components/esp_webrtc/src/esp_webrtc.c:753-797 | A started peer has a running, unpaused task |
| RenderFraming.AlignUpIsNextMultiple | components/av_render/src/av_render.c:1027-1046 | For every power of two the mask formula yields the next multiple: at least x, below x + align |
| RenderFraming.ReleaseWithinReservation | components/av_render/src/av_render.c:1048-1064 | For every alignment and every frame within the request, release sends no more than fetch reserved |
| RenderFraming.ZeroCopyRead | components/av_render/src/av_render.c:307-326 | The reader gets back the header unchanged, an aligned pointer inside the record, and behind it exactly the frame |
| ZeroCopyRuns.BlockStays | components/media_lib_utils/src/data_queue.c:225-398 | On every run a block stays in the record it was sent in until the reader takes it |
| ZeroCopyRuns.ZeroCopyOverRuns | components/av_render/src/av_render.c:1027-1064 | Fetch, fill and release, then any run of writer and reader: when the renderer holds that block it reads the frame back unchanged, at an aligned address inside the record it holds |
| RenderFraming.CopiedRead | components/av_render/src/av_render.c:232-245 | A copied frame's foreign data pointer never passes for an in-record one: a non-empty frame reads back from behind its header |
| RenderFraming.BadHeaderIsRefused | components/av_render/src/av_render.c:307-326 | A header whose size does not fit the record, and whose data does not end with it, is refused |
| FrameFifo.FrameFifo.Fetch | components/av_render/src/av_render.c:1027-1046 | On a real queue: an aligned address with room for the frame exactly when the reservation is granted, a wait exactly when it fits but is not, NULL otherwise; its pointer and size 0 in the header, which reads as an empty frame, no block changed |
| FrameFifo.FrameFifo.EmptyGrants | components/av_render/src/av_render.c:1027-1046 | An empty queue grants every frame it can hold at all |
| FrameFifo.FrameFifo.FrameReached | components/av_render/src/av_render.c:1143-1152 | The header is filled in but keeps its own data pointer; the decoded bytes and the queue stay |
| FrameFifo.FrameFifo.Release | components/av_render/src/av_render.c:1048-1064 | A frame that was prepared, or is as fetch left it, is always sent and reads back from the block it became; a dropped one leaves the queue as it was; either way the hold on the queue ends |
| RenderPool.StepConserves | components/av_render/src/av_render.c:186-882 | Every step of decoder thread and API accounts for every pool buffer: handed in = freed + still queued + in the API's hands + abandoned by a teardown |
| RenderPool.NeverFreedTwice | components/av_render/src/av_render.c:388-411 | On every run no pool buffer is freed more often than it was handed in |
| RenderPool.FreedExactlyOnce | components/av_render/src/av_render.c:839-882 | With quit_when_eos off: once all is quiet every pool buffer was freed exactly as often as it was handed in, over every mix of sync and threaded decoding, failed enqueue, flush, pause and close; nothing is abandoned, no thread outlives its resources |
| RenderPool.StepOrderly | components/av_render/src/av_render.c:791-882 | With quit_when_eos off, every step keeps the ordering of close, drain and teardown that makes this so |
| RenderPool.WakeUpFreesNothing | components/av_render/src/av_render.c:388-411 | The wake-up record is consumed without freeing anything, pausing or quitting, whatever quit_when_eos says |
| RenderPool.ZeroedIsWake | components/av_render/src/av_render.c:791-810 | A record of zero bytes, as send_msg_to_thread stores it, is what the decoder reads as that record: null data, no end of stream, for audio and video layout alike |
| RenderPool.RecordReadsBack | components/av_render/src/av_render.c:186-287 | The decoder's view of a pool record has the data pointer (null or not) and the end-of-stream flag that were handed in |
| RenderPool.PoolIsSafeIffDecoderOutlivesEos | components/av_render/src/av_render.c:839-882 | Some run loses a given buffer if and only if quit_when_eos is on: the decoder quits at end of stream and drains, while the API, having seen it alive, still enqueues |
| RenderPool.LostIffTornLate | components/av_render/src/av_render.c:839-882 | Which runs lose a buffer: exactly those that tear down a queue into which it was put after the decoder's last test for emptiness, with no decoder thread started on that queue since |
| RenderPool.FlushedMeansEmpty | components/av_render/src/av_render.c:828-860 | FLUSHED is set exactly when the flushing decoder finds its queue empty |
| RenderPool.FlushEnds | components/av_render/src/av_render.c:828-860 | A flush ends: the decoder can always go on, and needs at most three steps for each record and four more |
| RenderPool.ClosingEnds | components/av_render/src/av_render.c:876-882 | A decoder that has left its loop drains its queue and sets CLOSED in as bounded a way |
| RenderPool.WaitsReturn | components/av_render/src/av_render.c:2068-2110 | Flush and close return exactly on their bits, and take them down for the next time |
| RenderPool.MessagesAct | components/av_render/src/av_render.c:842-868 | What the decoder does with each message |
| RenderPool.PausedIff | components/av_render/src/av_render.c:388-411 | The pause flag is set by a pause message or a consumed end of stream and cleared by a resume or a teardown, and by nothing else |
| RenderPool.PausedDecoderRests | components/av_render/src/av_render.c:839-875 | A paused decoder consumes nothing until it is sent a message, however much is enqueued |
| RenderPool.HandInEnds | components/av_render/src/av_render.c:186-215 | What was handed in becomes the newest record, or is given back at once |
| BoardConfig.PrinterParserInverse | components/codec_board/cfg_parse.c:604-623 | For every list of lines of non-empty word tokens not named `Board`, parse_cfg on what the printer prints sees the same lines with the same attribute pairs in order: all of them, or those up to the first that fill_cfg refuses |
| BoardConfig.SectionsReadBack | components/codec_board/cfg_parse.c:114-183 | parse_section, called again behind each closing brace, gives back the whole printed list, whatever the tables hold |
| BoardConfig.FirstRefusedIsFirstMisfit | components/codec_board/cfg_parse.c:185-592 | The line that stops parse_cfg is the first that does not fit: counted from the lines before it, its table is full (2 i2c, 2 i2s, 2 codecs, 1 lcd, camera, sdcard), or a codec line names an unknown codec or a port, cut to 8 bits, that no earlier line has |
| BoardConfig.LineReadsBack | components/codec_board/cfg_parse.c:114-183 | One printed line, with or without a newline left over before it, is consumed whole and read back as itself |
| BoardConfig.AttributesOf | components/codec_board/cfg_parse.c:149-181 | The attribute loop undoes the printed list, pair by pair, up to the closing brace |
| BoardConfig.AttributesAnySeparators | components/codec_board/cfg_parse.c:149-181 | Not only for printed text: any words with any separators between them are paired up in order; a last word without a partner is dropped |
| BoardConfig.CommentChangesNothing | components/codec_board/cfg_parse.c:121-136 | A comment line in front of a section changes nothing, whatever it contains |
| BoardConfig.AtoiReads | components/codec_board/cfg_parse.c:443-481 | atoi reads back written numbers, with and without a minus sign |
| BoardConfig.LimitExamples | components/codec_board/cfg_parse.c:185-481 | The limits at work: a third i2c line, a second lcd line, a codec whose port nobody has |
| BoardConfig.SameAsBoard | components/codec_board/cfg_parse.c:29-41 | The `Board:` test accepts a printed name if and only if it is `Board`, never one that merely begins that way |
| BoardConfig.BoardEndsSection | components/codec_board/cfg_parse.c:137-139 | A printed line named `Board` is the one that does not read back: it ends the section |
| BoardConfig.LoopsIffFirstUnclosed | components/codec_board/cfg_parse.c:604-623 | parse_cfg fails to terminate if and only if the first section of the text has no closing brace and its name is none of the eight that fill a table; for those eight the same line comes back until it is refused |
| BoardConfig.LoopsForeverMeansForever | components/codec_board/cfg_parse.c:604-623 | That ending means that the loop outlasts every number of rounds, and every other ending that it does not |
| BoardConfig.OutOfBoundsIff | components/codec_board/cfg_parse.c:604-623 | parse_cfg walks off the text exactly when, after some number of rounds, the next section has no '{' at all or is an accepted one without '}' that is shorter than the step taken over it |
| BoardConfig.OverrunIff | components/codec_board/cfg_parse.c:137-148 | The first of these: exactly a name other than `Board:` with no '{' anywhere behind it |
| BoardConfig.ShortRest | components/codec_board/cfg_parse.c:604-623 | The second, for every line that is followed by a shorter section without '}' |
| BoardConfig.LeavesTextExamples | components/codec_board/cfg_parse.c:604-623 | A text for each: `i2c`, and a led line followed by `x: {` |
| BoardConfig.UnclosedExamples | components/codec_board/cfg_parse.c:604-623 | `x: {y` is parsed for ever, `lcd: {y` is refused |
| BoardConfig.SameIsWord | components/codec_board/cfg_parse.c:29-41 | On a pointer into the text str_same compares exactly the word that starts there |
| BoardConfig.StrLen | components/codec_board/cfg_parse.c:77-85 | Measures exactly the word at the pointer |
| BoardConfig.CompareAt | components/codec_board/cfg_parse.c:29-41 | Decides prefix plus word boundary |
| BoardConfig.ReadAttributes | components/codec_board/cfg_parse.c:149-181 | The in-place scan finds exactly the specified pairs and end |
| BoardConfig.ReadSection | components/codec_board/cfg_parse.c:114-183 | The in-place parse of one section yields the specified line and consumes a positive amount when it closes |
| BoardConfig.CheckCodec | components/codec_board/cfg_parse.c:443-481 | The attribute loop of fill_codec_cfg accepts exactly when every port is below its counter and every codec is known |
| BoardConfig.FillCfg | components/codec_board/cfg_parse.c:558-602 | fill_cfg returns -1 exactly for a full table or a bad codec line, and otherwise counts one entry of its table |
| BoardConfig.ReadConfig | components/codec_board/cfg_parse.c:604-623 | The loop with its running counters computes the specified result, its -1 and its bad endings included |
| ColorConvert.ConversionAccuracy | components/av_render/src/color_convert.c:32-105 | For all 2^24 samples and both byte orders, each channel is within 2 (R), 3 (G) and 3 (B) steps of the formula applied to the unquantised sample, although the table takes the low bits of u from y |
| ColorConvert.EntryFields | components/av_render/src/color_convert.c:62-105 | The three fields of every table entry, by the formula; the big-endian entry is the same with its bytes exchanged |
| ColorConvert.SwapExchangesBytes | components/av_render/src/color_convert.c:62-105 | Where the two bytes of a big-endian pixel go |
| ColorConvert.ChromaOfPixel | components/av_render/src/color_convert.c:165-194 | For every even width the running offsets put pixel (i, j) at i * w + j with chroma sample (i/2, j/2) |
| ColorConvert.AllInIff | components/av_render/src/color_convert.c:165-194 | For any width and height, odd ones included: the code stays inside source and output if and only if its last pixel does |
| ColorConvert.EvenImageFits | components/av_render/src/color_convert.c:165-194 | For every even width and height all samples of every pixel lie inside a source of the size convert_color demands |
| ColorConvert.StaysInsideIff | components/av_render/src/color_convert.c:196-247 | With buffers of the sizes convert_color asks for it stays inside them if and only if the width is even and the height is even or the width 2; the source checks neither |
| ColorConvert.EvenPixel | components/av_render/src/color_convert.c:165-194 | What is written for each pixel of an image of even size, in terms of the three samples |
| ColorConvert.Converter.InitTable | components/av_render/src/color_convert.c:62-105 | The triple loop initialises every entry to the formula's value |
| ColorConvert.Converter.ConvertImage | components/av_render/src/color_convert.c:165-194 | The loops leave their buffers if and only if the specification says so; if not, they hit initialised entries only and every output pixel is as specified |
| ColorConvert.Converter.ConvertColor | components/av_render/src/color_convert.c:196-247 | Exactly which inputs are converted, rejected, crash or leave the buffers (never for even sizes); a refused call leaves the output alone |
| MsgQueue.InsertAppends | components/media_lib_utils/src/msg_q.c:105-136 | Copying into slot (cur + filled) % number appends one message and moves no other |
| MsgQueue.RemoveTakesOldest | components/media_lib_utils/src/msg_q.c:138-173 | Advancing cur removes exactly the oldest message |
| MsgQueue.MsgQueue.Send | components/media_lib_utils/src/msg_q.c:105-136 | Refuses a message above the slot size, waits exactly when full, else appends |
| MsgQueue.MsgQueue.Recv | components/media_lib_utils/src/msg_q.c:138-173 | Refuses an oversized request, waits or returns 1 exactly when empty, else returns the oldest message's bytes and removes it |
| MsgQueue.MsgQueue.Number | components/media_lib_utils/src/msg_q.c:223-231 | The number of messages, never above the capacity |
| MsgQueueThreads.StepInv | components/media_lib_utils/src/msg_q.c:105-173 | Every step of one producer and one consumer keeps order, bound and the wake-up argument |
| MsgQueueThreads.SendEnqueuesOrSleeps | components/media_lib_utils/src/msg_q.c:105-136 | A pass of msg_q_send, first or after a wait, enqueues its message exactly when there is a slot and sleeps with it exactly when there is none |
| MsgQueueThreads.RecvTakesOrSleeps | components/media_lib_utils/src/msg_q.c:138-173 | A pass of msg_q_recv takes the requested bytes of the oldest message exactly when there is one, and otherwise sleeps or returns 1 |
| MsgQueueThreads.RunIsBoundedFifo | components/media_lib_utils/src/msg_q.c:105-173 | Over every interleaving, for messages and requests of any size: the i-th message received is the i-th sent (equal when asked for at its own size), the rest is in the slots in order and never exceeds the capacity, and a sleeper whose condition holds has the other side between unlock and signal |
| RtpTransform.ReceiverSizesWrapped | solutions/doorbell_local/main/webrtc.c:320-400 | What the sender announces is what it builds, and the receiver accepts it and announces the original size |
| RtpTransform.SenderAnnouncesWrapped | solutions/doorbell_local/main/webrtc.c:320-336 | The sender announces exactly the size of the frame it builds, unless it is video or above 1300 bytes |
| RtpTransform.FrameOnTheWire | solutions/doorbell_local/main/webrtc.c:338-375 | The wrapped frame byte by byte |
| RtpTransform.TailReads | solutions/doorbell_local/main/webrtc.c:347-350 | The tail is the mark, the count in decimal, and a NUL |
| RtpTransform.OutsideIff | solutions/doorbell_local/main/webrtc.c:377-400 | In the 32-bit sizes and addresses of the targets: the size callback reads outside the frame if and only if the frame has no room for a payload size or that size is 2^32 - 20 to 2^32 - 17 |
| RtpTransform.AcceptedIff | solutions/doorbell_local/main/webrtc.c:377-400 | It accepts exactly two kinds of frames: those that hold header, payload, sizes and tail end to end, and those whose claimed size wraps round to an address inside the frame where the stored tail size adds up; the claimed size against the frame's tells them apart |
| RtpTransform.WrappedExample | solutions/doorbell_local/main/webrtc.c:377-400 | A frame of 24 bytes of the second kind, accepted with size 0 |
| RtpTransform.Transformer.Check | solutions/doorbell_local/main/webrtc.c:402-421 | The tail check at the wrapped offset: found, not found (counted), or running off the frame |
| RtpTransform.UnwrapUndoesWrap | solutions/doorbell_local/main/webrtc.c:338-433 | Header and payload taken from a wrapped frame are the original frame, and its tail passes the receiver's check |
| RtpTransform.WrappedIsUnwrapped | solutions/doorbell_local/main/webrtc.c:320-433 | From end to end: what the sender builds is accepted by the size callback, passes the tail check, and unwraps to the original |
| RtpTransform.UnmarkedIsRefused | solutions/doorbell_local/main/webrtc.c:417-421 | An accepted frame without the five bytes of the mark is an error, never unwrapped |
| RtpTransform.MarkedIsUnwrapped | solutions/doorbell_local/main/webrtc.c:417-433 | One that holds its pieces and has the mark is unwrapped |
| RtpTransform.SendAndReceive | solutions/doorbell_local/main/webrtc.c:338-433 | Wrap, then unwrap in place: the original frame, and no error counted |
| RtpTransform.SendAndReceiveInto | solutions/doorbell_local/main/webrtc.c:338-433 | The same into another buffer |
| RtpTransform.Transformer.Wrap | solutions/doorbell_local/main/webrtc.c:338-375 | The running offsets fill the announced buffer with exactly the wrapped frame; the counter advances only on success |
| RtpTransform.Transformer.UnwrapInPlace | solutions/doorbell_local/main/webrtc.c:402-433 | For every frame the size callback accepts: if it holds its pieces and has the tail mark, header and payload end up adjacent in the same buffer in spite of the overlap; otherwise which error, or that the move would leave the frame, and nothing is changed before that |
| RtpTransform.Transformer.UnwrapInto | solutions/doorbell_local/main/webrtc.c:402-433 | The same into another buffer |

## Left out

- data_queue: threads beyond one writer, one reader and one caller of wakeup, and `data_queue_consume_all` by a second thread while the reader holds a record; the class takes one critical section for each method, the waiting loops around them are steps of `DataQueueThreads`.
- data_queue: request sizes below 0 or above INT_MAX - 4, whose sum with the header would overflow in the source.
- DataQueueThreads.StrandedOnlyAfterPeek: safety only; that the scheduler eventually runs the remaining user, and so ends the wakeup, is not stated.
- DataQueue.DataQueue.PeekUnlock: the unlock of a mutex taken by another call is not modelled, only the count it drops.
- ClientHelloSpec.ReassemblyExact: allocations succeed along the run; `FirstByteWins` and the class cover failing ones.
- ClientHelloBio: the saved 13-byte record header is a sequence-valued field and the 1500-byte receive buffer on the stack is not modelled, a pulled datagram arrives as a sequence; the callbacks' timeout handling, mbedTLS and SRTP are not part of this model.
- VideoChunkSpec.RoundTrip: memory for the receive buffer does not fail; `LossyDelivery` and `HandleChunk` cover failing allocations.
- VideoLoss: chunks arrive in the order sent and are not duplicated, as on an ordered data channel.
- VideoChannel: what the player does with a frame, and messages above INT_MAX bytes.
- PauseHandshake: one controller thread, as the API serialises it; a failing thread creation and a main loop that never returns; ICE, signaling and media calls between the steps.
- RenderPool: one decoder thread, audio and video having the same shape; the codec itself; the bound of 4 on its message queue; paths that copy the data instead of using the pool.
- RenderPool.NeverFreedTwice: a run ends where a thread would go on using resources that were torn down or taken over (only possible with quit_when_eos on).
- RenderFraming: wall-clock synchronisation and rendering itself; alignments that are not powers of two.
- FrameFifo.FrameFifo.Fetch: a wait for the reader ends the call with `FetchWaits`; the retry is a step of `DataQueueThreads`.
- BoardConfig: lines and attributes are sequences, not linked lists built by malloc; finding a board's section, and storing the values in the tables beyond what makes fill_cfg refuse, would only add easy members; reading past the end of the text is an outcome, not memory contents; atoi beyond int, undefined in C, saturates.
- BoardConfig.PrinterParserInverse: lines named `Board` or with empty or non-word tokens are outside it; `BoardEndsSection` shows why for the first.
- ColorConvert.Converter.ConvertColor: a product of width and height beyond int, and the ESP32-P4 hardware path; what an access outside the buffers does is an outcome, not memory contents.
- MsgQueue: `msg_q_reset`, `msg_q_wakeup` and destruction, which are outside the bounded FIFO; slots are sequence values in an array.
- MsgQueueThreads.RunIsBoundedFifo: one producer and one consumer.
- RtpTransform: the error count of the size callback; an access outside the frame is an outcome, not memory contents; the 32-bit targets only, as a machine with 64-bit sizes does not wrap.
- Signaling, capture, muxing, codecs, board and display drivers and the demo programs: I/O and glue.
- Logging, statistics, allocation failure beyond a "may fail" parameter.
