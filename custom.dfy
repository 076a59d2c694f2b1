/** custom.py: a strictly sequential reader on a blocking socket that shows
    every frame it reassembles in a window. It waits for an index-0 chunk,
    then expects the following datagrams to be chunks 1, 2, ... of the same
    frame, writing each into a zero-filled buffer of total * 1024 bytes, and
    decodes and shows the buffer after the final chunk; 'q' ends the script.

    The script keeps chunk_id, packet, frame_id and total_chunks from one
    pass of its outer loop to the next. The wait loop runs only while
    chunk_id is not 0, so a pass that ends with chunk_id == 0 makes the next
    pass start over from the datagram still held in `packet`, with the
    frame id and count then held in frame_id and total_chunks. */
module Custom {
  import opened Wire
  import opened Sequential
  import opened Window

  /** CHUNK_SIZE */
  const ChunkSize: nat := 1024

  // ---------------------------------------------------------------------
  // The wait loop

  /** A datagram that can start a frame: an index-0 chunk. */
  predicate StartsFrame(socket: seq<Datagram>, s: nat)
  {
    s < |socket| && Parse(socket[s].bytes).Some? && Parse(socket[s].bytes).value.chunkId == 0
  }

  /** Where the wait loop stops when the next unread datagram is
      socket[c]: at the first datagram that is an index-0 chunk or too
      short for struct.unpack, or at the end of the stream, where
      sock.recvfrom blocks for ever. */
  function StartFrom(socket: seq<Datagram>, c: nat): (j: nat)
    requires c <= |socket|
    ensures c <= j <= |socket|
    ensures forall k | c <= k < j :: Parse(socket[k].bytes).Some? && Parse(socket[k].bytes).value.chunkId != 0
    ensures j < |socket| ==> Parse(socket[j].bytes).None? || StartsFrame(socket, j)
    decreases |socket| - c
  {
    if c == |socket| || Parse(socket[c].bytes).None? || Parse(socket[c].bytes).value.chunkId == 0 then c
    else StartFrom(socket, c + 1)
  }

  /** Lines 21-23 of custom.py: receive datagrams until one is an index-0
      chunk. The index returned is |socket| when the stream ends first, and
      that of a datagram too short for a header when unpack raises on it. */
  method WaitForStart(socket: seq<Datagram>, cursor: nat) returns (j: nat)
    requires cursor <= |socket|
    ensures j == StartFrom(socket, cursor)
  {
    j := cursor;
    while j < |socket| && |socket[j].bytes| >= HeaderSize && Parse(socket[j].bytes).value.chunkId != 0
      invariant cursor <= j <= |socket|
      invariant StartFrom(socket, cursor) == StartFrom(socket, j)
      decreases |socket| - j
    {
      j := j + 1;
    }
  }

  // ---------------------------------------------------------------------
  // One frame

  /** The header the script holds for the index-0 chunk socket[s] when the
      count in total_chunks is n: that datagram's frame id, index and
      payload, and the count n. n is the datagram's own count, except after
      a count mismatch (line 41), which leaves the count of the frame it
      interrupted in total_chunks. */
  function Announced(socket: seq<Datagram>, s: nat, n: uint16): (first: Chunk)
    requires StartsFrame(socket, s)
  {
    Parse(socket[s].bytes).value.(total := n)
  }

  /** c names chunk j of the frame that `first` starts. */
  predicate Follows(c: Chunk, first: Chunk, j: nat)
  {
    c.frameId == first.frameId && c.total == first.total && c.chunkId == j
  }

  /** Chunk j of the frame that `first` (held for socket[s]) starts is
      acceptable: chunk 0 is `first` itself and must obey the size rule;
      chunk j >= 1 is the datagram socket[s + j], which has a header, names
      the same frame, count and index j, and obeys the size rule. */
  predicate Fits(socket: seq<Datagram>, s: nat, first: Chunk, j: nat)
  {
    if j == 0 then SizeOk(0, first.total, |first.payload|, ChunkSize)
    else
      && s + j < |socket|
      && Parse(socket[s + j].bytes).Some?
      && Follows(Parse(socket[s + j].bytes).value, first, j)
      && SizeOk(j, first.total, |Parse(socket[s + j].bytes).value.payload|, ChunkSize)
  }

  /** The payload of chunk k, which fits. */
  function Payload(socket: seq<Datagram>, s: nat, first: Chunk, k: nat): (p: Bytes)
    requires Fits(socket, s, first, k)
  {
    if k == 0 then first.payload else Parse(socket[s + k].bytes).value.payload
  }

  /** The payloads of chunks 0..n-1, all of which fit. */
  function Payloads(socket: seq<Datagram>, s: nat, first: Chunk, n: nat): (ps: seq<Bytes>)
    requires forall k | 0 <= k < n :: Fits(socket, s, first, k)
  {
    seq(n, k requires 0 <= k < n => Payload(socket, s, first, k))
  }

  /** The chunks before the final one are full, so chunks 0..i-1 fill the
      first 1024 * i bytes, or all of the frame's when i is the count. */
  lemma FilledLength(socket: seq<Datagram>, s: nat, first: Chunk, i: nat)
    requires i <= first.total
    requires forall k | 0 <= k < i :: Fits(socket, s, first, k)
    ensures i < first.total ==> forall k | 0 <= k < i :: |Payloads(socket, s, first, i)[k]| == ChunkSize
    ensures i < first.total ==> |Concat(Payloads(socket, s, first, i))| == ChunkSize * i
    ensures |Concat(Payloads(socket, s, first, i))| <= ChunkSize * first.total
  {
    var ps := Payloads(socket, s, first, i);
    if i < first.total {
      forall k | 0 <= k < i ensures |ps[k]| == ChunkSize {
        assert Fits(socket, s, first, k);
      }
      ConcatFull(ps, ChunkSize);
      NextOffset(i, first.total, ChunkSize);
    } else if i > 0 {
      forall k | 0 <= k < i ensures SizeOk(k, |ps|, |ps[k]|, ChunkSize) {
        assert Fits(socket, s, first, k);
      }
      FrameLayout(ps, ChunkSize);
    }
  }

  /** The buffer once chunks 0..i-1, all of which fit, are written. */
  function Filled(socket: seq<Datagram>, s: nat, first: Chunk, i: nat): (buffer: Bytes)
    requires i <= first.total
    requires forall k | 0 <= k < i :: Fits(socket, s, first, k)
    ensures |buffer| == ChunkSize * first.total
  {
    FilledLength(socket, s, first, i);
    Image(Payloads(socket, s, first, i), ChunkSize, first.total)
  }

  /** Chunks 0..i-1 of the frame fit. */
  predicate Reached(socket: seq<Datagram>, s: nat, first: Chunk, i: nat)
  {
    forall k | 0 <= k < i :: Fits(socket, s, first, k)
  }

  /** The way one pass of the outer loop ends once it holds an index-0
      chunk. Delivered: the buffer is decoded and shown, and `next` is the
      first unread datagram. Broken: the datagram at `at` did not fit and
      ended the frame; `carry` is the header the next pass starts from when
      that datagram is an index-0 chunk (chunk_id is then 0 and the wait
      loop is skipped), and None when the next pass waits. Stuck: chunk 0
      is not 1024 bytes long, or the count is below 2, so the pass ends
      with chunk_id still 0 and every later pass repeats it without
      reading. Ended: the stream ran out while a chunk was expected. Short:
      struct.unpack raised on the datagram at `at`. */
  datatype Attempt = Delivered(image: Bytes, next: nat) | Broken(at: nat, carry: Option<Chunk>) | Stuck | Ended | Short(at: nat)

  /** What the script holds after the datagram at `at` broke the frame
      that `first` starts: chunk_id is that datagram's index, frame_id its
      frame id, and total_chunks its count only when the frame ids differ
      (line 39). */
  function Carried(socket: seq<Datagram>, first: Chunk, at: nat): (carry: Option<Chunk>)
    requires at < |socket| && Parse(socket[at].bytes).Some?
  {
    var c := Parse(socket[at].bytes).value;
    if c.chunkId != 0 then None
    else Some(c.(total := if c.frameId != first.frameId then c.total else first.total))
  }

  /** The pass that holds the header `first` for the index-0 chunk at s:
      the size check on chunk 0 and the count, then the chunk loop (its
      contract is AttemptedSpec). */
  function Attempted(socket: seq<Datagram>, s: nat, first: Chunk): (a: Attempt)
    ensures a.Delivered? ==> s + 2 <= a.next <= |socket|
    ensures a.Broken? ==>
      s < a.at < |socket| && Parse(socket[a.at].bytes).Some? && a.carry == Carried(socket, first, a.at)
  {
    if |first.payload| != ChunkSize || first.total <= 1 then Stuck
    else
      assert Fits(socket, s, first, 0);
      Scan(socket, s, first, 1)
  }

  /** The chunk loop from chunk j on, chunks 0..j-1 having fit: it delivers
      the buffer after the final chunk and ends at the first chunk that
      does not fit. */
  function Scan(socket: seq<Datagram>, s: nat, first: Chunk, j: nat): (a: Attempt)
    requires 1 <= j <= first.total && 2 <= first.total && Reached(socket, s, first, j)
    ensures !a.Stuck?
    ensures a.Delivered? ==> s + 2 <= a.next <= |socket|
    ensures a.Broken? ==>
      s < a.at < |socket| && Parse(socket[a.at].bytes).Some? && a.carry == Carried(socket, first, a.at)
    decreases first.total - j
  {
    if j == first.total then
      assert Fits(socket, s, first, j - 1);
      Delivered(Filled(socket, s, first, j), s + j)
    else if Fits(socket, s, first, j) then Scan(socket, s, first, j + 1)
    else if s + j >= |socket| then Ended
    else if Parse(socket[s + j].bytes).None? then Short(s + j)
    else Broken(s + j, Carried(socket, first, s + j))
  }

  /** Chunks j..i-1 fit, so the loop reaches chunk i. */
  lemma {:induction false} ScanSkips(socket: seq<Datagram>, s: nat, first: Chunk, j: nat, i: nat)
    requires 1 <= j <= i <= first.total && 2 <= first.total && Reached(socket, s, first, i)
    ensures Reached(socket, s, first, j) && Scan(socket, s, first, j) == Scan(socket, s, first, i)
    decreases i - j
  {
    if j < i {
      ScanSkips(socket, s, first, j + 1, i);
      assert Fits(socket, s, first, j);
    }
  }

  /** Lines 25-59 of custom.py for the header `first` held for the index-0
      chunk at s: the zero-filled buffer, the size check on chunk 0, its
      write at offset 0, and the chunk loop. A count below 2 leaves the loop
      over range(1, total_chunks) empty; the buffer is then dropped, so
      whether chunk 0 was written into it changes nothing. */
  method AssembleFrame(socket: seq<Datagram>, s: nat, first: Chunk) returns (a: Attempt)
    ensures a == Attempted(socket, s, first)
  {
    var total := first.total;
    var buffer := new byte[ChunkSize * total](_ => 0);
    if |first.payload| != ChunkSize || total <= 1 {
      return Stuck;
    }
    assert buffer[..] == Filled(socket, s, first, 0);
    assert Fits(socket, s, first, 0);
    Store(buffer, socket, s, first, 0);
    var i := 1;
    while true
      invariant 1 <= i < total
      invariant Reached(socket, s, first, i) && buffer[..] == Filled(socket, s, first, i)
      decreases total - i
    {
      var ended := TakeChunk(buffer, socket, s, first, i);
      if ended.Some? {
        return ended.value;
      }
      i := i + 1;
    }
  }

  /** One pass of the chunk loop, lines 34-59 of custom.py, on chunk i >= 1:
      receive the next datagram, check its frame id, count, index and
      size, write it at offset 1024 * i, and deliver the buffer after the
      final chunk. Either the frame attempt ends as Attempted says, or
      chunk i is written and the loop goes on. */
  method TakeChunk(buffer: array<byte>, socket: seq<Datagram>, s: nat, first: Chunk, i: nat)
      returns (ended: Option<Attempt>)
    requires |first.payload| == ChunkSize && 1 <= i < first.total
    requires Reached(socket, s, first, i) && buffer[..] == Filled(socket, s, first, i)
    modifies buffer
    ensures ended.Some? ==> ended.value == Attempted(socket, s, first)
    ensures ended.None? ==>
      i + 1 < first.total && Reached(socket, s, first, i + 1) && buffer[..] == Filled(socket, s, first, i + 1)
  {
    if s + i >= |socket| {
      EndedAt(socket, s, first, i);
      return Some(Ended);
    }
    var packet := socket[s + i].bytes;
    if |packet| < HeaderSize {
      ShortAt(socket, s, first, i);
      return Some(Short(s + i));
    }
    var c := Parse(packet).value;
    var data := packet[HeaderSize..];
    // The checks of lines 36-57 in order: frame id, count, index, then the
    // size (the final chunk may be short, every other one must be full).
    if c.frameId != first.frameId || c.total != first.total || c.chunkId != i
       || !SizeOk(i, first.total, |data|, ChunkSize) {
      // Only a frame id mismatch reassigns total_chunks; chunk_id keeps the
      // index the datagram named, and only 0 skips the next wait loop.
      var total := if c.frameId != first.frameId then c.total else first.total;
      BrokenAt(socket, s, first, i);
      return Some(Broken(s + i, if c.chunkId == 0 then Some(c.(total := total)) else None));
    }
    assert Fits(socket, s, first, i);
    Store(buffer, socket, s, first, i);
    if i == first.total - 1 {
      DeliveredAt(socket, s, first);
      return Some(Delivered(buffer[..], s + first.total));
    }
    return None;
  }

  /** jpeg_buffer[1024 * i:1024 * i + len(data)] = data for chunk i, which
      fits, into the buffer that holds chunks 0..i-1. */
  method Store(buffer: array<byte>, socket: seq<Datagram>, s: nat, first: Chunk, i: nat)
    requires i < first.total && forall k | 0 <= k < i + 1 :: Fits(socket, s, first, k)
    requires buffer[..] == Filled(socket, s, first, i)
    modifies buffer
    ensures buffer[..] == Filled(socket, s, first, i + 1)
  {
    Written(socket, s, first, i);
    WriteSlice(buffer, ChunkSize * i, Payload(socket, s, first, i));
  }

  /** One more chunk that fits appends its payload. */
  lemma PayloadsNext(socket: seq<Datagram>, s: nat, first: Chunk, i: nat)
    requires forall k | 0 <= k < i + 1 :: Fits(socket, s, first, k)
    ensures Payloads(socket, s, first, i + 1) == Payloads(socket, s, first, i) + [Payload(socket, s, first, i)]
  {
    var longer := Payloads(socket, s, first, i + 1);
    var shorter := Payloads(socket, s, first, i) + [Payload(socket, s, first, i)];
    assert |longer| == |shorter|;
    forall k | 0 <= k < i + 1
      ensures longer[k] == shorter[k]
    {
    }
  }

  /** Writing chunk i at offset 1024 * i into the buffer that holds chunks
      0..i-1 gives the buffer that holds chunks 0..i. */
  lemma Written(socket: seq<Datagram>, s: nat, first: Chunk, i: nat)
    requires i < first.total
    requires forall k | 0 <= k < i + 1 :: Fits(socket, s, first, k)
    ensures var buffer := Filled(socket, s, first, i); var p := Payload(socket, s, first, i);
      && ChunkSize * i + |p| <= |buffer|
      && buffer[..ChunkSize * i] + p + buffer[ChunkSize * i + |p|..] == Filled(socket, s, first, i + 1)
  {
    var ps := Payloads(socket, s, first, i);
    var p := Payload(socket, s, first, i);
    FilledLength(socket, s, first, i);
    PayloadsNext(socket, s, first, i);
    assert Fits(socket, s, first, i);
    WriteNext(ps, p, ChunkSize, first.total);
  }

  /** The ways a frame attempt ends, by the first chunk that does not fit. */
  lemma BrokenAt(socket: seq<Datagram>, s: nat, first: Chunk, i: nat)
    requires |first.payload| == ChunkSize && 1 <= i < first.total
    requires Reached(socket, s, first, i) && !Fits(socket, s, first, i)
    requires s + i < |socket| && Parse(socket[s + i].bytes).Some?
    ensures Attempted(socket, s, first) == Broken(s + i, Carried(socket, first, s + i))
  {
    ScanSkips(socket, s, first, 1, i);
  }

  lemma EndedAt(socket: seq<Datagram>, s: nat, first: Chunk, i: nat)
    requires |first.payload| == ChunkSize && 1 <= i < first.total
    requires Reached(socket, s, first, i) && s + i >= |socket|
    ensures Attempted(socket, s, first) == Ended
  {
    ScanSkips(socket, s, first, 1, i);
  }

  lemma ShortAt(socket: seq<Datagram>, s: nat, first: Chunk, i: nat)
    requires |first.payload| == ChunkSize && 1 <= i < first.total
    requires Reached(socket, s, first, i) && s + i < |socket| && Parse(socket[s + i].bytes).None?
    ensures Attempted(socket, s, first) == Short(s + i)
  {
    ScanSkips(socket, s, first, 1, i);
  }

  lemma DeliveredAt(socket: seq<Datagram>, s: nat, first: Chunk)
    requires |first.payload| == ChunkSize && first.total >= 2
    requires Reached(socket, s, first, first.total)
    ensures Attempted(socket, s, first) == Delivered(Filled(socket, s, first, first.total), s + first.total)
  {
    ScanSkips(socket, s, first, 1, first.total);
  }

  // ---------------------------------------------------------------------
  // The outer loop

  /** Where the next pass of the outer loop starts. Wait(c): chunk_id is
      not 0, so the pass waits for an index-0 chunk from socket[c] on.
      Restart(s, first): chunk_id is 0, packet is socket[s] and the pass
      starts over from the header `first` without reading. */
  datatype Resume = Wait(cursor: nat) | Restart(s: nat, first: Chunk)

  /** The index of the next unread datagram. */
  function Position(r: Resume): (p: nat)
  {
    match r
    case Wait(cursor) => cursor
    case Restart(s, _) => s + 1
  }

  /** The state is one the script can be in: a restart holds the header of
      the index-0 chunk it names, with some count. */
  predicate Valid(socket: seq<Datagram>, r: Resume)
  {
    match r
    case Wait(cursor) => cursor <= |socket|
    case Restart(s, first) => StartsFrame(socket, s) && first == Announced(socket, s, first.total)
  }

  /** A run of custom.py: the frames shown, in order, and why the run
      ended. */
  datatype Session = Session(frames: seq<Bytes>, stop: Stop)

  /** The frames shown before a point of the run, then the rest of it. */
  function After(frames: seq<Bytes>, v: Session): (v': Session)
  {
    Session(frames + v.frames, v.stop)
  }

  /** The outer loop from state r, `shown` frames having been shown
      before. `decodes` says whether cv2.imdecode returns an image for some
      bytes; `keyAfter(n)` is what cv2.waitKey(1) returns after the n-th
      shown frame (counting from 0). */
  function Viewing(socket: seq<Datagram>, r: Resume, shown: nat, decodes: Bytes -> bool, keyAfter: nat -> int): (v: Session)
    requires Valid(socket, r)
  {
    match r
    case Wait(cursor) => Waiting(socket, cursor, shown, decodes, keyAfter)
    case Restart(s, first) => Resumed(socket, s, first, shown, decodes, keyAfter)
  }

  /** The outer loop from a pass that waits, from socket[cursor] on. */
  function Waiting(socket: seq<Datagram>, cursor: nat, shown: nat, decodes: Bytes -> bool, keyAfter: nat -> int): (v: Session)
    requires cursor <= |socket|
    decreases |socket| - cursor, 1
  {
    var j := StartFrom(socket, cursor);
    if j == |socket| then Session([], EndOfStream)
    else if Parse(socket[j].bytes).None? then Session([], ShortDatagram(j))
    else Resumed(socket, j, Parse(socket[j].bytes).value, shown, decodes, keyAfter)
  }

  /** The outer loop from a pass that holds the header `first` for the
      index-0 chunk at s. */
  function Resumed(socket: seq<Datagram>, s: nat, first: Chunk, shown: nat, decodes: Bytes -> bool, keyAfter: nat -> int): (v: Session)
    requires s < |socket|
    decreases |socket| - s, 0
  {
    match Attempted(socket, s, first)
    case Stuck => Session([], Stalled(s + 1))
    case Ended => Session([], EndOfStream)
    case Short(at) => Session([], ShortDatagram(at))
    case Broken(at, carry) =>
      if carry.Some? then Resumed(socket, at, carry.value, shown, decodes, keyAfter)
      else Waiting(socket, at + 1, shown, decodes, keyAfter)
    case Delivered(image, next) =>
      if !decodes(image) then Session([], ShowFailed)
      else if QuitKey(keyAfter(shown)) then Session([image], Quit)
      else
        var rest := Waiting(socket, next, shown + 1, decodes, keyAfter);
        Session([image] + rest.frames, rest.stop)
  }

  /** A header carried over from a broken frame is a valid restart. */
  lemma BrokenValid(socket: seq<Datagram>, s: nat, first: Chunk)
    requires Attempted(socket, s, first).Broken?
    ensures var a := Attempted(socket, s, first);
      a.carry.Some? ==> Valid(socket, Restart(a.at, a.carry.value))
  {
  }

  /** The next-state lemmas the outer loop relies on, one per way a pass
      ends. */
  lemma ViewingWaits(socket: seq<Datagram>, cursor: nat, shown: nat, decodes: Bytes -> bool, keyAfter: nat -> int)
    requires cursor <= |socket|
    ensures var j := StartFrom(socket, cursor); var v := Viewing(socket, Wait(cursor), shown, decodes, keyAfter);
      && (j == |socket| ==> v == Session([], EndOfStream))
      && (j < |socket| && Parse(socket[j].bytes).None? ==> v == Session([], ShortDatagram(j)))
      && (j < |socket| && Parse(socket[j].bytes).Some? ==>
            Valid(socket, Restart(j, Parse(socket[j].bytes).value)) &&
            v == Viewing(socket, Restart(j, Parse(socket[j].bytes).value), shown, decodes, keyAfter))
  {
  }

  lemma ViewingStops(socket: seq<Datagram>, s: nat, first: Chunk, shown: nat, decodes: Bytes -> bool, keyAfter: nat -> int)
    requires Valid(socket, Restart(s, first))
    ensures var a := Attempted(socket, s, first); var v := Viewing(socket, Restart(s, first), shown, decodes, keyAfter);
      && (a.Stuck? ==> v == Session([], Stalled(s + 1)))
      && (a.Ended? ==> v == Session([], EndOfStream))
      && (a.Short? ==> v == Session([], ShortDatagram(a.at)))
  {
  }

  lemma ViewingBreaks(socket: seq<Datagram>, s: nat, first: Chunk, at: nat, carry: Option<Chunk>,
                      shown: nat, decodes: Bytes -> bool, keyAfter: nat -> int)
    requires Valid(socket, Restart(s, first)) && Attempted(socket, s, first) == Broken(at, carry)
    ensures var r := if carry.Some? then Restart(at, carry.value) else Wait(at + 1);
      && Valid(socket, r) && Position(r) > s + 1
      && Viewing(socket, Restart(s, first), shown, decodes, keyAfter) == After([], Viewing(socket, r, shown, decodes, keyAfter))
  {
    BrokenValid(socket, s, first);
    var r := if carry.Some? then Restart(at, carry.value) else Wait(at + 1);
    assert [] + Viewing(socket, r, shown, decodes, keyAfter).frames == Viewing(socket, r, shown, decodes, keyAfter).frames;
  }

  lemma ViewingShows(socket: seq<Datagram>, s: nat, first: Chunk, image: Bytes, next: nat,
                     shown: nat, decodes: Bytes -> bool, keyAfter: nat -> int)
    requires Valid(socket, Restart(s, first)) && Attempted(socket, s, first) == Delivered(image, next)
    ensures var v := Viewing(socket, Restart(s, first), shown, decodes, keyAfter);
      && (!decodes(image) ==> v == Session([], ShowFailed))
      && (decodes(image) && QuitKey(keyAfter(shown)) ==> v == Session([image], Quit))
      && (decodes(image) && !QuitKey(keyAfter(shown)) ==>
            v == After([image], Viewing(socket, Wait(next), shown + 1, decodes, keyAfter)))
  {
  }

  /** Showing some frames, then some more, is showing all of them. */
  lemma AfterAfter(frames: seq<Bytes>, more: seq<Bytes>, v: Session)
    ensures After(frames, After(more, v)) == After(frames + more, v)
    ensures After(frames, Session([], v.stop)) == Session(frames, v.stop)
    ensures After(frames, Session(more, v.stop)) == Session(frames + more, v.stop)
  {
    assert frames + (more + v.frames) == (frames + more) + v.frames;
    assert frames + [] == frames;
  }

  /** One pass of the outer loop, lines 21-67 of custom.py, from state r:
      the wait loop unless chunk_id is 0, the frame attempt, and showing a
      delivered frame. Either the run goes on from `after` having shown
      `shownNow` (empty, or the one frame shown), or it ends with `stop`,
      having shown `shownNow` last. */
  method Pass(socket: seq<Datagram>, r: Resume, shown: nat, decodes: Bytes -> bool, keyAfter: nat -> int)
      returns (shownNow: seq<Bytes>, after: Resume, stop: Option<Stop>)
    requires Valid(socket, r)
    ensures |shownNow| <= 1
    ensures stop.None? ==>
      && Valid(socket, after) && Position(r) < Position(after)
      && Viewing(socket, r, shown, decodes, keyAfter) == After(shownNow, Viewing(socket, after, shown + |shownNow|, decodes, keyAfter))
    ensures stop.Some? ==> Viewing(socket, r, shown, decodes, keyAfter) == Session(shownNow, stop.value)
  {
    var s, first;
    match r {
      case Wait(cursor) =>
        ViewingWaits(socket, cursor, shown, decodes, keyAfter);
        var j := WaitForStart(socket, cursor);
        if j == |socket| {
          return [], r, Some(EndOfStream);
        }
        if |socket[j].bytes| < HeaderSize {
          return [], r, Some(ShortDatagram(j));
        }
        s, first := j, Parse(socket[j].bytes).value;
      case Restart(s', first') =>
        s, first := s', first';
    }
    shownNow, after, stop := Process(socket, s, first, shown, decodes, keyAfter);
  }

  /** The frame attempt and the display of a pass that holds the header
      `first` for the index-0 chunk at s (lines 25-67 of custom.py). */
  method Process(socket: seq<Datagram>, s: nat, first: Chunk, shown: nat, decodes: Bytes -> bool, keyAfter: nat -> int)
      returns (shownNow: seq<Bytes>, after: Resume, stop: Option<Stop>)
    requires Valid(socket, Restart(s, first))
    ensures |shownNow| <= 1
    ensures stop.None? ==>
      && Valid(socket, after) && s + 1 < Position(after)
      && Viewing(socket, Restart(s, first), shown, decodes, keyAfter) ==
           After(shownNow, Viewing(socket, after, shown + |shownNow|, decodes, keyAfter))
    ensures stop.Some? ==> Viewing(socket, Restart(s, first), shown, decodes, keyAfter) == Session(shownNow, stop.value)
  {
    var a := AssembleFrame(socket, s, first);
    ViewingStops(socket, s, first, shown, decodes, keyAfter);
    match a {
      case Stuck =>
        return [], Wait(s + 1), Some(Stalled(s + 1));
      case Ended =>
        return [], Wait(s + 1), Some(EndOfStream);
      case Short(at) =>
        return [], Wait(s + 1), Some(ShortDatagram(at));
      case Broken(at, carry) =>
        ViewingBreaks(socket, s, first, at, carry, shown, decodes, keyAfter);
        after := if carry.Some? then Restart(at, carry.value) else Wait(at + 1);
        return [], after, None;
      case Delivered(image, next) =>
        ViewingShows(socket, s, first, image, next, shown, decodes, keyAfter);
        // cv2.imshow raises on the None that cv2.imdecode returns.
        if !decodes(image) {
          return [], Wait(next), Some(ShowFailed);
        }
        if QuitKey(keyAfter(shown)) {
          return [image], Wait(next), Some(Quit);
        }
        return [image], Wait(next), None;
    }
  }

  /** One pass of the outer loop after `frames` were shown, `whole` being
      the run as a whole: the run either ends with `stop`, having shown
      `frames'`, or goes on from state r' having shown `frames'`. */
  method Advance(socket: seq<Datagram>, ghost whole: Session, frames: seq<Bytes>, shown: nat, r: Resume,
                 decodes: Bytes -> bool, keyAfter: nat -> int)
      returns (frames': seq<Bytes>, shown': nat, r': Resume, stop: Option<Stop>)
    requires Valid(socket, r) && shown == |frames|
    requires whole == After(frames, Viewing(socket, r, shown, decodes, keyAfter))
    ensures stop.Some? ==> whole == Session(frames', stop.value)
    ensures stop.None? ==> Valid(socket, r') && Position(r) < Position(r') && shown' == |frames'|
    ensures stop.None? ==> whole == After(frames', Viewing(socket, r', shown', decodes, keyAfter))
  {
    var shownNow, after, ended := Pass(socket, r, shown, decodes, keyAfter);
    if ended.Some? {
      AfterAfter(frames, shownNow, Viewing(socket, r, shown, decodes, keyAfter));
      return frames + shownNow, shown, r, ended;
    }
    AfterAfter(frames, shownNow, Viewing(socket, after, shown + |shownNow|, decodes, keyAfter));
    return frames + shownNow, shown + |shownNow|, after, None;
  }

  /** custom.py over the stream `socket`: chunk_id starts at 42, so the
      first pass waits. */
  method Run(socket: seq<Datagram>, decodes: Bytes -> bool, keyAfter: nat -> int) returns (frames: seq<Bytes>, stop: Stop)
    ensures Session(frames, stop) == Viewing(socket, Wait(0), 0, decodes, keyAfter)
  {
    frames := [];
    var shown: nat := 0;
    var r: Resume := Wait(0);
    ghost var whole := Viewing(socket, r, 0, decodes, keyAfter);
    assert [] + whole.frames == whole.frames;
    while true
      invariant Valid(socket, r) && shown == |frames|
      invariant whole == After(frames, Viewing(socket, r, shown, decodes, keyAfter))
      decreases |socket| - Position(r)
    {
      var ended;
      frames, shown, r, ended := Advance(socket, whole, frames, shown, r, decodes, keyAfter);
      if ended.Some? {
        return frames, ended.value;
      }
    }
  }

  // ---------------------------------------------------------------------
  // Properties of a frame attempt

  /** Chunk i >= 1 is the first chunk of the frame that does not fit. */
  predicate BreaksAt(socket: seq<Datagram>, s: nat, first: Chunk, i: nat)
  {
    1 <= i < first.total && Reached(socket, s, first, i) && !Fits(socket, s, first, i)
  }

  /** The chunk loop from chunk j on ends at the first chunk that does not
      fit, and delivers exactly when every chunk fits. */
  lemma {:induction false} ScanStops(socket: seq<Datagram>, s: nat, first: Chunk, j: nat)
    requires s < |socket| && 1 <= j <= first.total && 2 <= first.total && Reached(socket, s, first, j)
    ensures var a := Scan(socket, s, first, j); var n := first.total;
      && (a.Delivered? <==> Reached(socket, s, first, n))
      && (a.Delivered? ==> a == Delivered(Filled(socket, s, first, n), s + n))
      && (a.Broken? ==> BreaksAt(socket, s, first, a.at - s))
      && (a.Ended? ==> |socket| - s < n && Reached(socket, s, first, |socket| - s))
      && (a.Short? ==> s < a.at < |socket| && BreaksAt(socket, s, first, a.at - s) && Parse(socket[a.at].bytes).None?)
    decreases first.total - j
  {
    if j < first.total {
      if Fits(socket, s, first, j) {
        assert Reached(socket, s, first, j + 1);
        ScanStops(socket, s, first, j + 1);
      } else if s + j >= |socket| {
        assert Fits(socket, s, first, j - 1);
      }
    }
  }

  /** One pass that holds a header: it stalls exactly when chunk 0 is not
      1024 bytes long or the count is below 2; it shows the buffer exactly
      when every chunk fits, and then the buffer those chunks fill;
      otherwise it ends at the first chunk that does not fit, which is
      past the end of the stream, too short for a header, or a datagram
      whose header names another frame, count or index or whose payload
      breaks the size rule. In that last case the next pass starts over
      from that datagram when it is an index-0 chunk. */
  lemma AttemptedSpec(socket: seq<Datagram>, s: nat, first: Chunk)
    requires Valid(socket, Restart(s, first))
    ensures var a := Attempted(socket, s, first); var n := first.total;
      && (a.Stuck? <==> |first.payload| != ChunkSize || n <= 1)
      && (a.Delivered? <==> n >= 2 && Reached(socket, s, first, n))
      && (a.Delivered? ==> a == Delivered(Filled(socket, s, first, n), s + n))
      && (a.Broken? ==>
            && s < a.at && BreaksAt(socket, s, first, a.at - s)
            && Parse(socket[a.at].bytes).Some? && a.carry == Carried(socket, first, a.at))
      && (a.Ended? ==> n >= 2 && |socket| - s < n && Reached(socket, s, first, |socket| - s))
      && (a.Short? ==> s < a.at < |socket| && BreaksAt(socket, s, first, a.at - s) && Parse(socket[a.at].bytes).None?)
  {
    if |first.payload| == ChunkSize && first.total >= 2 {
      assert Fits(socket, s, first, 0);
      ScanStops(socket, s, first, 1);
    } else if first.total >= 2 {
      assert !Fits(socket, s, first, 0);
    }
  }

  /** After a chunk that does not fit, the next pass waits for an index-0
      chunk after it, unless that chunk is itself an index-0 chunk: then
      the next pass starts over from it with no datagram read, announcing
      its own count when it names another frame and still the count of the
      interrupted frame when it names the same one. */
  lemma ChunkZeroRestarts(socket: seq<Datagram>, s: nat, first: Chunk, shown: nat, decodes: Bytes -> bool, keyAfter: nat -> int)
    requires Valid(socket, Restart(s, first)) && Attempted(socket, s, first).Broken?
    ensures var at := Attempted(socket, s, first).at;
      && s < at < |socket| && Parse(socket[at].bytes).Some?
      && var c := Parse(socket[at].bytes).value;
      && (c.chunkId == 0 ==>
            && StartsFrame(socket, at)
            && var n := if c.frameId == first.frameId then first.total else c.total;
            && Viewing(socket, Restart(s, first), shown, decodes, keyAfter) ==
                 Viewing(socket, Restart(at, Announced(socket, at, n)), shown, decodes, keyAfter))
      && (c.chunkId != 0 ==>
            Viewing(socket, Restart(s, first), shown, decodes, keyAfter) == Viewing(socket, Wait(at + 1), shown, decodes, keyAfter))
  {
    var a := Attempted(socket, s, first);
    var c := Parse(socket[a.at].bytes).value;
    if c.chunkId == 0 {
      var n := if c.frameId == first.frameId then first.total else c.total;
      assert a.carry == Some(Announced(socket, a.at, n));
    }
  }

  // ---------------------------------------------------------------------
  // Properties of a run

  /** The datagrams from s on hold a whole frame when the count held for
      it is n: an index-0 chunk with a 1024-byte payload and n >= 2,
      followed by chunks 1..n-1 of the same frame and count n, each
      obeying the size rule. */
  predicate Complete(socket: seq<Datagram>, s: nat, n: uint16)
  {
    StartsFrame(socket, s) && n >= 2 && Reached(socket, s, Announced(socket, s, n), n)
  }

  /** The buffer a whole frame fills. */
  function FrameAt(socket: seq<Datagram>, s: nat, n: uint16): (image: Bytes)
    requires Complete(socket, s, n)
    ensures |image| == ChunkSize * n
  {
    Filled(socket, s, Announced(socket, s, n), n)
  }

  /** What a shown buffer holds: chunk i of the frame at offset 1024 * i,
      and zeros after the last chunk. */
  lemma FrameAtLayout(socket: seq<Datagram>, s: nat, n: uint16)
    requires Complete(socket, s, n)
    ensures var first := Announced(socket, s, n); var image := FrameAt(socket, s, n);
      && image == Filled(socket, s, first, n)
      && FilledLayout(Payloads(socket, s, first, n), image)
  {
    var first := Announced(socket, s, n);
    var ps := Payloads(socket, s, first, n);
    forall k | 0 <= k < n ensures SizeOk(k, |ps|, |ps[k]|, ChunkSize) {
      assert Fits(socket, s, first, k);
    }
    ChunksLayout(ps);
  }

  /** Chunks that obey the size rule fill the buffer as FilledLayout says. */
  lemma ChunksLayout(ps: seq<Bytes>)
    requires |ps| >= 1 && forall i | 0 <= i < |ps| :: SizeOk(i, |ps|, |ps[i]|, ChunkSize)
    ensures |Concat(ps)| <= ChunkSize * |ps| && FilledLayout(ps, Image(ps, ChunkSize, |ps|))
  {
    FrameLayout(ps, ChunkSize);
  }

  /** The buffer `image` holds the chunks ps: chunk i at offset 1024 * i,
      the chunks in order from offset 0, and zeros after the last one. */
  ghost predicate FilledLayout(ps: seq<Bytes>, image: Bytes)
  {
    && |ps| >= 1 && |image| == ChunkSize * |ps|
    && |Concat(ps)| == ChunkSize * (|ps| - 1) + |ps[|ps| - 1]| <= |image|
    && image[..|Concat(ps)|] == Concat(ps)
    && (forall t | |Concat(ps)| <= t < |image| :: image[t] == 0)
    && forall i | 0 <= i < |ps| ::
         ChunkSize * i + |ps[i]| <= |image| && image[ChunkSize * i..ChunkSize * i + |ps[i]|] == ps[i]
  }

  /** `image` is the buffer of a whole frame found in the stream at or
      after index c. */
  ghost predicate WholeFrom(socket: seq<Datagram>, c: nat, image: Bytes)
  {
    exists s: nat, n: uint16 | c <= s < |socket| :: Complete(socket, s, n) && image == FrameAt(socket, s, n)
  }

  /** Every one of `frames` is the buffer of a whole frame found at or
      after index c. */
  ghost predicate AllWholeFrom(socket: seq<Datagram>, c: nat, frames: seq<Bytes>)
  {
    forall k | 0 <= k < |frames| :: WholeFrom(socket, c, frames[k])
  }

  lemma AllWholeFromEarlier(socket: seq<Datagram>, c: nat, c': nat, frames: seq<Bytes>)
    requires c <= c' && AllWholeFrom(socket, c', frames)
    ensures AllWholeFrom(socket, c, frames)
  {
    forall k | 0 <= k < |frames| ensures WholeFrom(socket, c, frames[k]) {
      var s: nat, n: uint16 :| c' <= s < |socket| && Complete(socket, s, n) && frames[k] == FrameAt(socket, s, n);
    }
  }

  lemma AllWholeFromCons(socket: seq<Datagram>, c: nat, image: Bytes, frames: seq<Bytes>)
    requires WholeFrom(socket, c, image) && AllWholeFrom(socket, c, frames)
    ensures AllWholeFrom(socket, c, [image] + frames)
  {
    forall k | 0 <= k < |[image] + frames| ensures WholeFrom(socket, c, ([image] + frames)[k]) {
      if k > 0 {
        assert ([image] + frames)[k] == frames[k - 1];
      }
    }
  }

  /** A buffer shown by the pass that holds the header `first` for the
      index-0 chunk at s is the whole frame found there. */
  lemma ShownIsWhole(socket: seq<Datagram>, s: nat, first: Chunk)
    requires Valid(socket, Restart(s, first)) && Attempted(socket, s, first).Delivered?
    ensures WholeFrom(socket, s, Attempted(socket, s, first).image)
  {
    AttemptedSpec(socket, s, first);
    assert Complete(socket, s, first.total) && Attempted(socket, s, first).image == FrameAt(socket, s, first.total);
  }

  /** Every frame a run shows is the buffer of a whole frame found in the
      stream, at or after where the run started. */
  lemma {:induction false} WaitingShowsWhole(socket: seq<Datagram>, cursor: nat, shown: nat, decodes: Bytes -> bool, keyAfter: nat -> int)
    requires cursor <= |socket|
    ensures AllWholeFrom(socket, cursor, Waiting(socket, cursor, shown, decodes, keyAfter).frames)
    decreases |socket| - cursor, 1
  {
    var j := StartFrom(socket, cursor);
    if j < |socket| && Parse(socket[j].bytes).Some? {
      var first := Parse(socket[j].bytes).value;
      assert Valid(socket, Restart(j, first));
      ResumedShowsWhole(socket, j, first, shown, decodes, keyAfter);
      AllWholeFromEarlier(socket, cursor, j, Resumed(socket, j, first, shown, decodes, keyAfter).frames);
    }
  }

  lemma {:induction false} ResumedShowsWhole(socket: seq<Datagram>, s: nat, first: Chunk, shown: nat, decodes: Bytes -> bool, keyAfter: nat -> int)
    requires Valid(socket, Restart(s, first))
    ensures AllWholeFrom(socket, s, Resumed(socket, s, first, shown, decodes, keyAfter).frames)
    decreases |socket| - s, 0
  {
    match Attempted(socket, s, first) {
      case Broken(at, carry) =>
        BrokenValid(socket, s, first);
        if carry.Some? {
          ResumedShowsWhole(socket, at, carry.value, shown, decodes, keyAfter);
          AllWholeFromEarlier(socket, s, at, Resumed(socket, at, carry.value, shown, decodes, keyAfter).frames);
        } else {
          WaitingShowsWhole(socket, at + 1, shown, decodes, keyAfter);
          AllWholeFromEarlier(socket, s, at + 1, Waiting(socket, at + 1, shown, decodes, keyAfter).frames);
        }
      case Delivered(image, next) =>
        if decodes(image) {
          ShownIsWhole(socket, s, first);
          if QuitKey(keyAfter(shown)) {
            AllWholeFromCons(socket, s, image, []);
            assert [image] + [] == [image];
          } else {
            var rest := Waiting(socket, next, shown + 1, decodes, keyAfter);
            WaitingShowsWhole(socket, next, shown + 1, decodes, keyAfter);
            AllWholeFromEarlier(socket, s, next, rest.frames);
            AllWholeFromCons(socket, s, image, rest.frames);
          }
        }
      case _ =>
    }
  }

  /** The run from state r shows the frames of some session in order:
      every frame it shows decodes, and 'q' is read after the last one
      exactly when the run ends with Quit, after no earlier one. */
  ghost predicate Orderly(v: Session, shown: nat, decodes: Bytes -> bool, keyAfter: nat -> int)
  {
    && (forall i | 0 <= i < |v.frames| :: decodes(v.frames[i]))
    && (forall n | shown <= n < shown + |v.frames| :: QuitKey(keyAfter(n)) <==> v.stop == Quit && n == shown + |v.frames| - 1)
    && (v.stop == Quit ==> v.frames != [])
  }

  /** Showing one more frame, that decodes and after which 'q' was not
      read, in front of an orderly session. */
  lemma OrderlyCons(image: Bytes, rest: Session, shown: nat, decodes: Bytes -> bool, keyAfter: nat -> int)
    requires decodes(image) && !QuitKey(keyAfter(shown)) && Orderly(rest, shown + 1, decodes, keyAfter)
    ensures Orderly(Session([image] + rest.frames, rest.stop), shown, decodes, keyAfter)
  {
    var v := Session([image] + rest.frames, rest.stop);
    forall i | 0 <= i < |v.frames| ensures decodes(v.frames[i]) {
      if i > 0 {
        assert v.frames[i] == rest.frames[i - 1];
      }
    }
  }

  lemma {:induction false} WaitingOrderly(socket: seq<Datagram>, cursor: nat, shown: nat, decodes: Bytes -> bool, keyAfter: nat -> int)
    requires cursor <= |socket|
    ensures Orderly(Waiting(socket, cursor, shown, decodes, keyAfter), shown, decodes, keyAfter)
    decreases |socket| - cursor, 1
  {
    var j := StartFrom(socket, cursor);
    if j < |socket| && Parse(socket[j].bytes).Some? {
      ResumedOrderly(socket, j, Parse(socket[j].bytes).value, shown, decodes, keyAfter);
    }
  }

  lemma {:induction false} ResumedOrderly(socket: seq<Datagram>, s: nat, first: Chunk, shown: nat, decodes: Bytes -> bool, keyAfter: nat -> int)
    requires s < |socket|
    ensures Orderly(Resumed(socket, s, first, shown, decodes, keyAfter), shown, decodes, keyAfter)
    decreases |socket| - s, 0
  {
    match Attempted(socket, s, first) {
      case Broken(at, carry) =>
        if carry.Some? {
          ResumedOrderly(socket, at, carry.value, shown, decodes, keyAfter);
        } else {
          WaitingOrderly(socket, at + 1, shown, decodes, keyAfter);
        }
      case Delivered(image, next) =>
        if decodes(image) && !QuitKey(keyAfter(shown)) {
          WaitingOrderly(socket, next, shown + 1, decodes, keyAfter);
          OrderlyCons(image, Waiting(socket, next, shown + 1, decodes, keyAfter), shown, decodes, keyAfter);
        }
      case _ =>
    }
  }

  /** A whole frame whose index-0 chunk is the next datagram when the
      script waits, announcing its own count, is the next frame shown
      when it decodes; when it does not, cv2.imshow raises on it. */
  lemma WholeFrameShown(socket: seq<Datagram>, cursor: nat, shown: nat, decodes: Bytes -> bool, keyAfter: nat -> int)
    requires StartsFrame(socket, cursor) && Complete(socket, cursor, Parse(socket[cursor].bytes).value.total)
    ensures var v := Waiting(socket, cursor, shown, decodes, keyAfter);
      var image := FrameAt(socket, cursor, Parse(socket[cursor].bytes).value.total);
      && (decodes(image) ==> v.frames != [] && v.frames[0] == image)
      && (!decodes(image) ==> v == Session([], ShowFailed))
  {
    var first := Parse(socket[cursor].bytes).value;
    assert Announced(socket, cursor, first.total) == first;
    AttemptedSpec(socket, cursor, first);
  }

  /** A pass that holds an index-0 chunk whose payload is not 1024 bytes
      long, or a count below 2, ends the run: the outer loop goes round
      for ever without reading. In particular a frame of one chunk is
      never shown. */
  lemma StuckStalls(socket: seq<Datagram>, cursor: nat, shown: nat, decodes: Bytes -> bool, keyAfter: nat -> int)
    requires StartsFrame(socket, cursor)
    requires |Parse(socket[cursor].bytes).value.payload| != ChunkSize || Parse(socket[cursor].bytes).value.total <= 1
    ensures Waiting(socket, cursor, shown, decodes, keyAfter) == Session([], Stalled(cursor + 1))
  {
  }
}
