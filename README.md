# Receiver-side JPEG frame reassembly

This project models the four receiver scripts of a camera-streaming
repository and proves properties of the model. A sender cuts each JPEG frame
into chunks. Each chunk travels as one UDP datagram: a 6-byte header of three
little-endian unsigned 16-bit fields (frame id, chunk id, chunk count),
followed by the payload. There are two families of receiver.

The first family is the buffered table of `catch.py` and
`catch-and-display.py`. It keeps a dictionary from frame id to the chunks
received so far, the latest announced count and the time of the latest
chunk. A frame is emitted, and its record deleted, once the number of
stored chunk ids equals the count. A sweep on every receive timeout drops
records older than five seconds. `catch.py` writes each frame to
`frame_NNNNN.jpg`. `catch-and-display.py` decodes and shows each frame, and
stops on 'q'.

The second family is the strictly sequential readers `receive.py` (chunk
size 1400) and `custom.py` (chunk size 1024). Each waits for an index-0
chunk, allocates a zero-filled buffer of count times the chunk size, and
writes chunk i at offset i times the chunk size. It abandons the frame at
the first chunk with the wrong frame id, count or index, or a payload that
breaks the size rule. `receive.py` first drains the socket backlog, so it
only looks at the newest datagram. `custom.py` carries `chunk_id`,
`frame_id` and `total_chunks` over from the frame that broke into the next
pass of its loop.

Modules:
- `Wire`: the header format and the byte helpers.
- `FrameTable`: the buffered table. It contains the class `Table`, whose
  `frames` field is the dictionary, together with its step functions and
  the replay of the receive loop.
- `Catch` and `CatchAndDisplay`: the two buffered scripts.
- `Sequential`: what the two sequential readers share.
  - the datagram stream;
  - why a run ends;
  - the size rule;
  - the zero-filled buffer.
- `Receive` and `Custom`: the two sequential readers.
- `Window`: the 'q' key test.

How the environment is represented:
- The socket of a buffered script is a sequence of events. An event is a
  datagram received at a time, or a timeout noticed at a time.
- The socket of a sequential reader is a sequence of datagrams read through
  a cursor. Each datagram carries a flag saying whether it was already
  queued when the reader asked for it.
- Time is a parameter.
- Whether a buffer decodes as a JPEG is the parameter `decodes`.
- The key `cv2.waitKey(1)` returns after the n-th shown frame is the
  parameter `keyAfter(n)`.

Each receive loop of the scripts, and each loop that fills a buffer, is a
`method` with a loop. Its contract ties its result to a recursive
specification function, and lemmas state what the
source promises about that function.

## Model

| member | source | states |
|---|---|---|
| Wire.Parse | catch.py:10-11 | There is a header exactly when the datagram holds at least 6 bytes, and the payload is everything after byte 6. |
| Wire.ParseEncode | catch.py:44-47 | Parsing the encoding of any three 16-bit fields and any payload gives back exactly those fields and that payload. |
| Wire.EncodeParse | catch.py:44-47 | Any datagram of at least 6 bytes is exactly the encoding of its parsed header and payload. |
| Wire.Encode | catch.py:10 | The wire form of a chunk is 6 header bytes followed by the payload unchanged. |
| Wire.ConcatAt | catch.py:57-58 | In an ordered join, each payload sits right after the total length of the payloads before it. |
| FrameTable.JoinSpec | catch.py:56-58 | The join succeeds exactly when ids 0..n-1 are all stored, and then yields their payloads in index order. Otherwise it names the first absent id, which is the latent KeyError. |
| FrameTable.Table.constructor | catch.py:16 | The table starts empty. |
| FrameTable.Table.Ingest | catch.py:39-64 | The new table and the outcome of one datagram follow the step function: short datagrams are skipped; the chunk is stored; the count and timestamp are overwritten; the frame completes or the join fails. |
| FrameTable.Table.Sweep | catch-and-display.py:35-42 | The loop over `list(frames)` leaves exactly the swept table. |
| FrameTable.ShortPacketIgnored | catch.py:39-41 | A datagram shorter than the header leaves the table unchanged and emits nothing. |
| FrameTable.IngestTouchesOwnFrameOnly | catch.py:50-53 | Every other frame id's record is unchanged. A record for the chunk's own id is created if absent, gains this payload under the chunk id, keeps its other payloads, and takes this count and time; it disappears exactly when the frame completes. |
| FrameTable.IngestKeepsOthers | catch-and-display.py:53-56 | Other frame ids keep their records; the own record is gone exactly on completion. |
| FrameTable.IngestUpdatesOwn | catch-and-display.py:53-56 | The own record becomes the old chunks plus this payload, with this count and time. |
| FrameTable.CompletionUsesLatestTotal | catch-and-display.py:55-59 | A frame completes exactly when its stored ids number the count of the chunk just received and are 0..count-1, whatever earlier chunks announced. |
| FrameTable.RedeliveryIsIdempotent | catch.py:51-56 | Re-delivering a stored id overwrites its payload. The number of stored ids stays the same, and with the same count the frame does not complete. |
| FrameTable.InRangeNeverFaults | catch.py:56-57 | When every stored id and the new one lie below the count, the join never fails. |
| FrameTable.OutOfRangeIdFaults | catch.py:56-57 | Ids 0 and 5 of a two-chunk frame make the count match while id 1 is missing, and the join fails on id 1. |
| FrameTable.FullRange | catch.py:56 | A set of n ids, all below n, contains every id below n. |
| FrameTable.BoundedSize | catch.py:56 | A set of ids below m has at most m members. |
| FrameTable.IngestKeepsIncomplete | catch.py:56-64 | After ingesting one datagram, no stored record is complete, unless the join failed. |
| FrameTable.SweptFrameStartsOver | catch.py:33-53 | A chunk for a swept frame starts a record holding only itself, so chunks received before the sweep never join a frame. |
| FrameTable.FreshRecord | catch.py:50-56 | A chunk for an unknown frame id completes the frame exactly when it is chunk 0 of a one-chunk frame, and then the frame is that chunk's payload. |
| FrameTable.SweepIdempotent | catch.py:33-36 | Sweeping twice at the same time removes nothing more. |
| FrameTable.SweepKeepsIncomplete | catch.py:33-36 | The sweep keeps every stored record incomplete. |
| FrameTable.Handle | catch.py:26-64 | One iteration of the receive loop completes at most one frame. |
| FrameTable.ReplayContinues | catch.py:26-64 | An iteration that does not stop is followed by the rest of the run. |
| FrameTable.ReplayStops | catch.py:56-57 | An iteration whose join fails ends the run. |
| FrameTable.HandleArrived | catch.py:28-64 | An iteration on a datagram is the table step on it. |
| FrameTable.HandleChunk | catch.py:44-64 | An iteration on the wire form of a chunk is the table step on that chunk. |
| FrameTable.ReplayChain | catch.py:26-37 | A chain of iterations covering all events is the run: it ends in the last table, having emitted all frames in order. |
| FrameTable.ReplayChainStop | catch.py:56-57 | A chain followed by a failing join is the run, ending crashed. |
| FrameTable.ReplayChainPrefix | catch.py:26-64 | A chain of iterations is a prefix of the run. |
| FrameTable.ReplayKeepsIncomplete | catch.py:56-64 | Along any run that did not crash, no record left in the table is complete. |
| FrameTable.FirstChunksHold | catch.py:51 | Distinct chunk ids arriving one after another leave each payload stored under its id. |
| FrameTable.FirstChunksCount | catch.py:51-56 | j distinct ids leave j stored chunks. |
| FrameTable.AllArrivedJoin | catch.py:57-58 | Once all n chunks are stored, the join is the payloads in index order. |
| FrameTable.ArrivalStored | catch.py:50-56 | Each arrival before the last is stored and completes nothing. |
| FrameTable.ArrivalCompletes | catch.py:56-64 | The last arrival completes the frame with the in-order join and deletes its record. |
| FrameTable.ArrivalIteration | catch.py:26-64 | The j-th arrival goes from the table after j arrivals to the table after j+1, and completes the frame exactly when it is the last. |
| FrameTable.ArrivalChain | catch.py:26-64 | All arrivals of one frame form a chain of non-stopping iterations. |
| FrameTable.AnyOrderCompletes | catch.py:56-64 | In an uninterrupted burst (no timeout and no datagram of another frame in between), a frame whose n chunks all arrive, in any order, is emitted exactly once as the in-order join of its payloads, and the table ends as it was. |
| Catch.Decimal | catch.py:59 | `str(n)` is a non-empty string of digits. |
| Catch.ValueOfDecimal | catch.py:59 | The digits of `str(n)` denote n. |
| Catch.ValueOfPadded | catch.py:59 | Leading zeros do not change the value. |
| Catch.FrameNameInjective | catch.py:59 | Distinct counter values give distinct names `frame_{counter:05}.jpg`. |
| Catch.Run | catch.py:25-64 | The script crashes exactly when the run's join fails. It writes one file per completed frame, in completion order; the k-th file is named after counter value k and holds the k-th frame. All file names differ. |
| Catch.SavedNext | catch.py:59-63 | Writing the next frame under the next counter value extends the files written so far. |
| Catch.NamesDistinct | catch.py:59-63 | Files named after consecutive counter values have pairwise distinct names. |
| CatchAndDisplay.ShownCount | catch-and-display.py:68-71 | At most as many frames are shown as are viewed. |
| CatchAndDisplay.DisplayViews | catch-and-display.py:65-73 | Each completed frame, in completion order, is shown exactly when it decodes. Every completed frame is viewed unless 'q' ended the script. |
| CatchAndDisplay.DisplayQuits | catch-and-display.py:68-71 | The number of waitKey calls is the number of shown frames. The script quits only right after showing a frame whose key was 'q'. |
| CatchAndDisplay.DisplayFirstQuit | catch-and-display.py:70-71 | No frame shown before the last one read 'q'. |
| CatchAndDisplay.DisplayAfterQuit | catch-and-display.py:71 | Frames completed after 'q' change nothing. |
| CatchAndDisplay.DisplayNext | catch-and-display.py:65-73 | One more completed frame is shown, with its key tested, when it decodes, and is reported as undecodable otherwise. |
| CatchAndDisplay.QuitEndsRun | catch-and-display.py:71 | What the rest of the run would complete after a quit is never viewed. |
| CatchAndDisplay.Run | catch-and-display.py:25-75 | The views are exactly what the viewer makes of the run's completed frames, the script quits exactly when the viewer does, and it crashes exactly when the join fails before any quit. Each completed record is deleted whether or not it decodes. |
| Window.QuitKeyLowByte | catch-and-display.py:70 | Only the low byte of the key matters. No key pressed (-1) does not quit, and 'q' does. |
| Sequential.Image | receive.py:57-78 | The buffer always has length count times the chunk size. |
| Sequential.WriteSlice | receive.py:66-78 | A slice assignment inside the buffer replaces exactly those bytes and keeps the length. |
| Sequential.ConcatFull | receive.py:75-78 | Full chunks add up to the chunk size times their number. |
| Sequential.WriteNext | receive.py:66-78 | Writing the next payload at offset size times i into the buffer holding chunks 0..i-1 gives the buffer holding chunks 0..i. |
| Sequential.NextOffset | receive.py:78 | Slot i ends inside the buffer. |
| Sequential.FrameLayout | receive.py:57-78 | A frame of n chunks that obey the size rule fills size times (n-1) bytes plus the final chunk's length, in order; chunk i is at offset size times i, and every byte after the chunks is zero. |
| Sequential.FrameLength | receive.py:62-78 | Chunks that obey the size rule fill size times (n-1) bytes plus the final chunk's length. |
| Sequential.FrameChunks | receive.py:66-78 | Every chunk sits at its offset. |
| Sequential.ImageChunk | custom.py:53-58 | Chunk i, after i full chunks, sits at offset size times i. |
| Receive.Latest | receive.py:39-48 | The packet returned is the last one of the backlog of queued datagrams behind the cursor: every datagram up to it was queued, and the one after it was not. |
| Receive.LatestUnique | receive.py:39-48 | That description fits one datagram only. |
| Receive.LatestPacket | receive.py:27-48 | The drain loop returns the newest datagram of the backlog, or nothing when no datagram comes any more. |
| Receive.Misfit | receive.py:59-92 | This is the first chunk index that does not fit, or the count when they all do. |
| Receive.MisfitAt | receive.py:59-92 | Any index before which all chunks fit, and at which one does not, is the first misfit. |
| Receive.FilledLength | receive.py:75-78 | Chunks before the final one fill exactly 1400 times their number of bytes. |
| Receive.Filled | receive.py:57 | The buffer has count times 1400 bytes. |
| Receive.Assembled | receive.py:57-92 | A delivered or abandoned attempt moves the reader forward. |
| Receive.AssembleFrame | receive.py:57-92 | The array loop ends as the attempt specification says. |
| Receive.TakeChunk | receive.py:61-92 | One pass of the chunk loop either ends the attempt as specified, or writes chunk i and reaches chunk i+1. |
| Receive.NextChunk | receive.py:80-92 | The next datagram must have the same frame id and count and index i+1. Otherwise the attempt ends as specified. |
| Receive.Store | receive.py:66-78 | Writing chunk i into the array gives the buffer that holds chunks 0..i. |
| Receive.Written | receive.py:66-78 | The same write, on byte sequences. |
| Receive.AbandonedAt | receive.py:62-92 | A datagram that does not fit abandons the frame, and the reader goes on after it. |
| Receive.EndedAt | receive.py:80 | A stream that runs out inside a frame ends the run in the blocking read. |
| Receive.ShortAt | receive.py:81 | A datagram too short for a header makes `struct.unpack` raise. |
| Receive.DeliveredAt | receive.py:62-73 | When all chunks fit, the filled buffer is delivered, and reading goes on after the final chunk. |
| Receive.ReceivingSkips | receive.py:51-55 | A newest datagram that is not an index-0 chunk is dropped. |
| Receive.ReceivingDelivers | receive.py:71-73 | A delivered frame is handed on, and the run continues after it. |
| Receive.ReceivingAbandons | receive.py:82-86 | After an abandoned frame the loop fetches a fresh newest datagram: the datagram that broke the frame is thrown away, and the reassignments at lines 84-85 have no effect. |
| Receive.ReceivingStops | receive.py:80-81 | The run ends inside a frame when the stream runs out or a datagram is too short. |
| Receive.ReceivingEnds | receive.py:52-53 | The run ends in the wait for a datagram, or on a too-short newest datagram. |
| Receive.AfterAfter | receive.py:50 | Handing on frames then more frames is handing on all of them. |
| Receive.Attempt | receive.py:57-92 | One attempt either moves the run forward, having handed on at most the delivered buffer, or ends it. |
| Receive.Advance | receive.py:50-92 | One pass of the outer loop keeps the run's whole reception fixed while it moves the cursor forward or ends. |
| Receive.Run | receive.py:50-92 | The buffers decoded for `ml.process` and the reason the run ends are those of the specification over the whole stream. |
| Receive.FrameAt | receive.py:57 | A whole frame fills count times 1400 bytes. |
| Receive.FrameAtLayout | receive.py:57-78 | A delivered buffer holds the first 1400(n-1) bytes plus the last chunk's length as the in-order payloads, chunk i at offset 1400i, then zeros. |
| Receive.WholeFromEarlier | receive.py:50 | A frame found from some point on is also found from any earlier point. |
| Receive.AllWholeFromEarlier | receive.py:50 | The same for every frame of a list. |
| Receive.AllWholeFromCons | receive.py:50 | A whole frame in front of whole frames gives whole frames. |
| Receive.ReceivedFramesAreWhole | receive.py:50-92 | Every buffer a run hands on is a whole frame found in the stream. |
| Receive.AttemptFramesAreWhole | receive.py:57-92 | The same, from a point where the newest datagram starts a frame. |
| Receive.AssembledSpec | receive.py:57-92 | A frame is delivered exactly when it is whole, and then as the buffer it fills. Otherwise the attempt stops at the first chunk that does not fit and consumes the datagram that broke it. A count of 0 reads nothing more. |
| Receive.AssembledDelivers | receive.py:62-73 | A frame is delivered exactly when it is whole. |
| Receive.AssembledAbandons | receive.py:62-92 | An abandoned frame ends at the first chunk that does not fit. |
| Receive.AssembledEnds | receive.py:80 | The stream ran out before the final chunk. |
| Receive.AssembledShort | receive.py:81 | The unpack failed on the first chunk that did not fit. |
| Receive.WholeFrameDelivered | receive.py:39-73 | A whole frame whose index-0 chunk is the newest datagram is the next buffer handed on. |
| Custom.StartFrom | custom.py:18-23 | The wait loop skips exactly the headed datagrams with a non-zero chunk id. It stops at an index-0 chunk, at a datagram too short for a header, or at the end of the stream. |
| Custom.WaitForStart | custom.py:21-23 | The wait loop stops where StartFrom says. |
| Custom.FilledLength | custom.py:49-53 | Chunks before the final one fill exactly 1024 times their number of bytes. |
| Custom.Filled | custom.py:25 | The buffer has count times 1024 bytes. |
| Custom.Attempted | custom.py:25-59 | A broken attempt ends on a headed datagram after the start and carries what the script holds (frame id, count) to the next pass. A delivered one moves at least two datagrams on. |
| Custom.Scan | custom.py:33-59 | The chunk loop never stalls. It breaks on a headed datagram after the start, carrying the script's header. |
| Custom.ScanSkips | custom.py:33 | Chunks that fit are passed over by the loop. |
| Custom.AssembleFrame | custom.py:25-59 | The array version of a frame attempt ends as the specification says. |
| Custom.TakeChunk | custom.py:34-59 | One iteration checks frame id, count, index and size, in that order, and writes chunk i at offset 1024i. Otherwise it ends the attempt as specified. |
| Custom.Store | custom.py:53-58 | Writing chunk i into the array gives the buffer holding chunks 0..i. |
| Custom.Written | custom.py:53-58 | The same write, on byte sequences. |
| Custom.BrokenAt | custom.py:36-57 | The first chunk that does not fit breaks the frame, with the carried header. |
| Custom.EndedAt | custom.py:34 | A stream that runs out inside a frame ends the run in the blocking read. |
| Custom.ShortAt | custom.py:35 | A datagram too short for a header makes `struct.unpack` raise. |
| Custom.DeliveredAt | custom.py:54-59 | When all chunks fit, the filled buffer is delivered. |
| Custom.BrokenValid | custom.py:36-46 | A carried header is a valid restart for the next pass. |
| Custom.ViewingWaits | custom.py:20-23 | A waiting pass ends the run at the end of the stream or on a short datagram. Otherwise it starts over from the index-0 chunk found. |
| Custom.ViewingStops | custom.py:28-34 | A stalled pass, a stream that ends, or a short datagram ends the run. |
| Custom.ViewingBreaks | custom.py:36-46 | After a broken frame the run goes on from a later datagram: restarting from the carried header, or waiting after the breaker. |
| Custom.ViewingShows | custom.py:61-67 | An undecodable frame makes `imshow` raise. 'q' after a shown frame quits with that frame last. Otherwise the frame is shown and the next pass waits. |
| Custom.AfterAfter | custom.py:20 | Showing frames then more frames is showing all of them. |
| Custom.Pass | custom.py:20-67 | One pass of the outer loop moves the run forward, having shown at most one frame, or ends it. |
| Custom.Process | custom.py:25-67 | A pass that holds a header moves the run forward or ends it, as the specification says. |
| Custom.Advance | custom.py:20-67 | One pass of the outer loop keeps the whole session fixed while it moves forward or ends. |
| Custom.Run | custom.py:18-67 | The frames shown and the reason the run ends are those of the specification, starting with chunk_id 42 (waiting). |
| Custom.ScanStops | custom.py:33-59 | The chunk loop delivers exactly when every chunk fits, then as the filled buffer. Otherwise it ends at the first chunk that does not fit. |
| Custom.AttemptedSpec | custom.py:25-59 | A pass stalls exactly when chunk 0 is not 1024 bytes or the count is below 2. It shows the buffer exactly when every chunk fits. Otherwise it ends at the first chunk that does not fit, carrying that datagram's header when it is an index-0 chunk. |
| Custom.ChunkZeroRestarts | custom.py:18-46 | An index-0 breaker starts the next pass with no read. It carries its own count when its frame id differs, and the stale count of the interrupted frame otherwise. Any other breaker makes the next pass wait after it. |
| Custom.FrameAt | custom.py:25 | A whole frame fills count times 1024 bytes. |
| Custom.FrameAtLayout | custom.py:25-58 | A shown buffer holds the in-order payloads, chunk i at offset 1024i, then zeros. |
| Custom.ChunksLayout | custom.py:25-58 | Chunks that obey the size rule fill the buffer in that layout. |
| Custom.AllWholeFromEarlier | custom.py:20 | Frames found from some point on are also found from any earlier point. |
| Custom.AllWholeFromCons | custom.py:20 | A whole frame in front of whole frames gives whole frames. |
| Custom.ShownIsWhole | custom.py:25-59 | A buffer shown by a pass is the whole frame found at its start. |
| Custom.WaitingShowsWhole | custom.py:20-67 | Every frame a run shows is a whole frame found in the stream. |
| Custom.ResumedShowsWhole | custom.py:25-67 | The same, from a pass that holds a header. |
| Custom.OrderlyCons | custom.py:61-67 | A decoded frame without 'q' in front of an orderly session gives an orderly session. |
| Custom.WaitingOrderly | custom.py:20-67 | Every shown frame decodes. 'q' is read after the last shown frame exactly when the run ends with Quit, and after no earlier frame. |
| Custom.ResumedOrderly | custom.py:25-67 | The same, from a pass that holds a header. |
| Custom.WholeFrameShown | custom.py:21-67 | A whole frame found by a waiting pass is the next frame shown when it decodes; otherwise `imshow` raises on it. |
| Custom.StuckStalls | custom.py:20-33 | A chunk 0 that is not 1024 bytes long, or a count below 2, makes the loop go round for ever without reading. In particular, a one-chunk frame is never shown. |

The functions that define each loop's control flow carry no contract of
their own. The rows above specify them:
- `Wire.Concat` (catch.py:58, `b''.join`): specified by `Wire.ConcatAt` and `Sequential.FrameLayout`.
- `FrameTable.Join` (catch.py:57-58): specified by `FrameTable.JoinSpec`.
- `FrameTable.IngestChunk` (catch.py:50-64) and `FrameTable.Ingested` (catch.py:39-64): specified by `FrameTable.Table.Ingest` and the lemmas from `ShortPacketIgnored` to `FreshRecord`.
- `FrameTable.Stale` (catch.py:34) and `FrameTable.Pruned` (catch.py:33-36): specified by `FrameTable.Table.Sweep`, `SweepIdempotent`, `SweepKeepsIncomplete` and `SweptFrameStartsOver`.
- `FrameTable.Replay` (catch.py:25-64): specified by `ReplayContinues`, `ReplayStops`, `ReplayChain`, `ReplayChainStop`, `ReplayKeepsIncomplete` and `AnyOrderCompletes`.
- `Catch.FrameName` (catch.py:59): specified by `Catch.FrameNameInjective` and `Catch.Run`.
- `CatchAndDisplay.Display` (catch-and-display.py:64-73): specified by `DisplayViews`, `DisplayQuits`, `DisplayFirstQuit`, `DisplayAfterQuit` and `CatchAndDisplay.Run`.
- `Window.QuitKey` (catch-and-display.py:70, custom.py:64): specified by `Window.QuitKeyLowByte`.
- `Sequential.SizeOk` (receive.py:62-77, custom.py:49-57): used by `Sequential.FrameLayout`.
- `Wire.Zeros` (receive.py:57, custom.py:25, the zero fill of `bytearray`): specified by `Sequential.Image` and `Sequential.FrameLayout`.
- `Receive.Payloads` (receive.py:60-77) and `Custom.Payloads` (custom.py:28-57), the payloads of the chunks that fit: specified by `Receive.FrameAtLayout` and `Custom.FrameAtLayout`.
- `Receive.Fits` (receive.py:60-92): specified by `Receive.AssembledSpec`.
- `Receive.Receiving` (receive.py:50-92): specified by `Receive.Run`, the `Receiving...` lemmas, `ReceivedFramesAreWhole` and `WholeFrameDelivered`.
- `Custom.Fits` (custom.py:28-58): specified by `Custom.ScanStops` and `Custom.AttemptedSpec`.
- `Custom.Carried` (custom.py:35-46): specified by `Custom.ChunkZeroRestarts`.
- `Custom.Viewing`, `Custom.Waiting` and `Custom.Resumed` (custom.py:18-67): specified by `Custom.Run`, the `Viewing...` lemmas, `WaitingShowsWhole`, `WaitingOrderly`, `WholeFrameShown` and `StuckStalls`.

## Left out

- Socket set-up and closing, `print`, the busy wait and its timer in `get_next_packet` (receive.py:27-37), and `time.time()`. Time is a parameter, and the stream is a sequence of datagrams or events.
- Arrival timing in `receive.py`: whether a datagram was already queued when the drain looked is a flag on each datagram, not derived from times.
- `recvfrom(2048)` truncation of longer datagrams: a datagram is modelled as the bytes the read returns.
- `cv2.imdecode`, `cv2.imshow` and `cv2.waitKey` are the `decodes` and `keyAfter` parameters. The decoded image itself is not modelled, only whether decoding succeeds.
- `ml.process` (receive.py:70-71): the model records the bytes passed to `cv2.imdecode`, and assumes that `ml.process` returns on the decoded result. As written, it raises on every call, so the script stops at its first delivered frame: `im.shape` fails on the None that a failed decode gives (ml.py:39), and `time.time()` is called although ml.py never imports `time` (ml.py:44). Face detection is not part of this model.
- The file writes of `catch.py`: the model records each file's name and bytes.
- `KeyboardInterrupt`, and the `finally` clean-up of `catch-and-display.py`.
- The sender firmware under main/, ml.py and pwm.py are not part of this model.
- CatchAndDisplay.Run: after 'q' the script exits, so the model does not return the table left in memory.
- Behaviour of the code the model keeps:
  - a record's count is overwritten by every chunk, not fixed by the first;
  - an empty final chunk is accepted;
  - a datagram too short for a header crashes both sequential readers (`struct.unpack` raises), though the buffered scripts skip it;
  - `receive.py` discards the chunk that aborted a frame instead of re-evaluating it;
  - `custom.py` re-evaluates the aborting chunk only when its id is 0, and then without draining the backlog.
- The unbounded growth of the buffered table under loss is not stated as a property. The sweep is its only bound.
