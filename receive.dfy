/** receive.py: a strictly sequential reader on a non-blocking socket. It
    waits for the newest datagram to be an index-0 chunk, then expects the
    following datagrams to be chunks 1, 2, ... of the same frame, writing
    each into a zero-filled buffer of total * 1400 bytes, and hands the
    buffer on after the final chunk. Any deviation abandons the frame. */
module Receive {
  import opened Wire
  import opened Sequential

  /** CHUNK_SIZE */
  const ChunkSize: nat := 1400

  // ---------------------------------------------------------------------
  // get_latest_packet

  /** The index of the datagram get_latest_packet returns when the next
      unread datagram is socket[c]: the last one of the backlog that had
      already arrived, one after the other, behind it. */
  function Latest(socket: seq<Datagram>, c: nat): (j: nat)
    requires c < |socket|
    ensures c <= j < |socket|
    ensures forall k | c < k <= j :: socket[k].queued
    ensures j + 1 == |socket| || !socket[j + 1].queued
    decreases |socket| - c
  {
    if c + 1 < |socket| && socket[c + 1].queued then Latest(socket, c + 1) else c
  }

  /** The backlog drain describes one datagram only: the first one after
      the cursor that is not followed by a queued one. */
  lemma {:induction false} LatestUnique(socket: seq<Datagram>, c: nat, j: nat)
    requires c <= j < |socket|
    requires forall k | c < k <= j :: socket[k].queued
    requires j + 1 == |socket| || !socket[j + 1].queued
    ensures Latest(socket, c) == j
    decreases j - c
  {
    if c < j {
      LatestUnique(socket, c + 1, j);
    }
  }

  /** get_next_packet followed by non-blocking reads until one fails: the
      index of the packet returned, every earlier datagram of the backlog
      being skipped, or None when no datagram comes any more (the busy
      wait of get_next_packet never ends). The next unread datagram is the
      one after the returned index. */
  method LatestPacket(socket: seq<Datagram>, cursor: nat) returns (r: Option<nat>)
    ensures cursor < |socket| ==> r == Some(Latest(socket, cursor))
    ensures cursor >= |socket| ==> r == None
  {
    if cursor >= |socket| {
      return None;
    }
    var j := cursor;
    while j + 1 < |socket| && socket[j + 1].queued
      invariant cursor <= j < |socket|
      invariant Latest(socket, cursor) == Latest(socket, j)
      decreases |socket| - j
    {
      j := j + 1;
    }
    return Some(j);
  }

  // ---------------------------------------------------------------------
  // One frame

  /** A datagram that can start a frame: an index-0 chunk. */
  predicate StartsFrame(socket: seq<Datagram>, s: nat)
  {
    s < |socket| && Parse(socket[s].bytes).Some? && Parse(socket[s].bytes).value.chunkId == 0
  }

  /** The datagram at s + j is chunk j of the frame that `first` (at s)
      starts: it exists, has a header, names the same frame and count and
      the index j, and obeys the size rule for index j. */
  predicate Fits(socket: seq<Datagram>, s: nat, first: Chunk, j: nat)
  {
    && s + j < |socket|
    && Parse(socket[s + j].bytes).Some?
    && Follows(Parse(socket[s + j].bytes).value, first, j)
    && SizeOk(j, first.total, |Parse(socket[s + j].bytes).value.payload|, ChunkSize)
  }

  /** c can be chunk j of the frame that `first` starts. */
  predicate Follows(c: Chunk, first: Chunk, j: nat)
  {
    j == 0 || (c.frameId == first.frameId && c.total == first.total && c.chunkId == j)
  }

  /** The attempt from the index-0 chunk at s has got to chunk i: chunks
      0..i-1 fit and the datagram at s + i names chunk i of the frame. */
  predicate Reached(socket: seq<Datagram>, s: nat, first: Chunk, i: nat)
  {
    && s + i < |socket| && Parse(socket[s + i].bytes).Some?
    && Follows(Parse(socket[s + i].bytes).value, first, i)
    && forall k | 0 <= k < i :: Fits(socket, s, first, k)
  }

  /** The first chunk index from j on that does not fit, or the count when
      they all do. */
  function Misfit(socket: seq<Datagram>, s: nat, first: Chunk, j: nat): (m: nat)
    requires j <= first.total
    ensures j <= m <= first.total
    ensures forall k | j <= k < m :: Fits(socket, s, first, k)
    ensures m < first.total ==> !Fits(socket, s, first, m)
    decreases first.total - j
  {
    if j == first.total || !Fits(socket, s, first, j) then j else Misfit(socket, s, first, j + 1)
  }

  lemma {:induction false} MisfitAt(socket: seq<Datagram>, s: nat, first: Chunk, j: nat, m: nat)
    requires j <= m <= first.total
    requires forall k | j <= k < m :: Fits(socket, s, first, k)
    requires m == first.total || !Fits(socket, s, first, m)
    ensures Misfit(socket, s, first, j) == m
    decreases m - j
  {
    if j < m {
      MisfitAt(socket, s, first, j + 1, m);
    }
  }

  /** The payload of chunk k, which fits. */
  function Payload(socket: seq<Datagram>, s: nat, first: Chunk, k: nat): (p: Bytes)
    requires Fits(socket, s, first, k)
  {
    Parse(socket[s + k].bytes).value.payload
  }

  /** The payloads of chunks 0..n-1 of the frame that `first` (at s)
      starts, all of which fit. */
  function Payloads(socket: seq<Datagram>, s: nat, first: Chunk, n: nat): (ps: seq<Bytes>)
    requires forall k | 0 <= k < n :: Fits(socket, s, first, k)
  {
    seq(n, k requires 0 <= k < n => Payload(socket, s, first, k))
  }

  /** The chunks before the final one are full, so chunks 0..i-1 fill the
      first 1400 * i bytes, or all of the frame's when i is the count. */
  lemma FilledLength(socket: seq<Datagram>, s: nat, first: Chunk, i: nat)
    requires i <= first.total
    requires forall k | 0 <= k < i :: Fits(socket, s, first, k)
    ensures i < first.total ==> forall k | 0 <= k < i :: |Payloads(socket, s, first, i)[k]| == ChunkSize
    ensures i < first.total ==> |Concat(Payloads(socket, s, first, i))| == ChunkSize * i
    ensures |Concat(Payloads(socket, s, first, i))| <= ChunkSize * first.total
  {
    var ps := Payloads(socket, s, first, i);
    if i < first.total {
      forall k | 0 <= k < i ensures |ps[k]| == ChunkSize {
        assert Fits(socket, s, first, k);
      }
      ConcatFull(ps, ChunkSize);
      NextOffset(i, first.total, ChunkSize);
    } else if i > 0 {
      forall k | 0 <= k < i ensures SizeOk(k, |ps|, |ps[k]|, ChunkSize) {
        assert Fits(socket, s, first, k);
      }
      FrameLayout(ps, ChunkSize);
    }
  }

  /** The buffer once chunks 0..i-1, all of which fit, are written. */
  function Filled(socket: seq<Datagram>, s: nat, first: Chunk, i: nat): (buffer: Bytes)
    requires i <= first.total
    requires forall k | 0 <= k < i :: Fits(socket, s, first, k)
    ensures |buffer| == ChunkSize * first.total
  {
    FilledLength(socket, s, first, i);
    Image(Payloads(socket, s, first, i), ChunkSize, first.total)
  }

  /** The way one frame attempt ends. Delivered: the buffer is handed to
      ml.process and `next` is the first unread datagram. Abandoned: the
      frame is dropped having read up to next - 1. Ended: the stream ran
      out while a chunk was expected. Short: struct.unpack raised on the
      datagram at `at`. */
  datatype Assembly = Delivered(image: Bytes, next: nat) | Abandoned(next: nat) | Ended | Short(at: nat)

  /** The attempt that starts from the index-0 chunk at s: it runs up to
      the first chunk that does not fit (its contract is AssembledSpec). */
  function Assembled(socket: seq<Datagram>, s: nat): (a: Assembly)
    requires StartsFrame(socket, s)
    ensures (a.Delivered? || a.Abandoned?) ==> s < a.next <= |socket|
  {
    var first := Parse(socket[s].bytes).value;
    var n := first.total;
    var m := Misfit(socket, s, first, 0);
    if m == n then
      if n == 0 then Abandoned(s + 1)
      else assert Fits(socket, s, first, n - 1); Delivered(Filled(socket, s, first, n), s + n)
    else if s + m >= |socket| then Ended
    else if Parse(socket[s + m].bytes).None? then Short(s + m)
    else Abandoned(s + m + 1)
  }

  /** Lines 57-92 of receive.py for the index-0 chunk at s: the zero-filled
      buffer, the size checks, the slice writes at offset 1400 * i, and the
      checks on the next datagram. On a frame id mismatch the script
      reassigns frame_id and total_chunks before breaking out, but the
      outer loop reads a fresh packet and overwrites both, so that has no
      effect and is not repeated here. */
  method AssembleFrame(socket: seq<Datagram>, s: nat) returns (a: Assembly)
    requires StartsFrame(socket, s)
    ensures a == Assembled(socket, s)
  {
    var first := Parse(socket[s].bytes).value;
    var total := first.total;
    var buffer := new byte[ChunkSize * total](_ => 0);
    assert buffer[..] == Filled(socket, s, first, 0);
    for i := 0 to total
      invariant i < total || total == 0
      invariant Reached(socket, s, first, i)
      invariant buffer[..] == Filled(socket, s, first, i)
    {
      var ended := TakeChunk(buffer, socket, s, first, i);
      if ended.Some? {
        return ended.value;
      }
    }
    AbandonedAt(socket, s, first, 0);
    return Abandoned(s + 1);
  }

  /** One pass of the chunk loop, lines 61-92 of receive.py, on chunk i,
      the datagram socket[s + i], which names the right frame, count and
      index: the size check, the write at offset 1400 * i, and either the
      delivery (final chunk) or the checks on the next datagram. Either the
      attempt ends as Assembled says, or chunk i is written and the next
      datagram names chunk i + 1. */
  method TakeChunk(buffer: array<byte>, socket: seq<Datagram>, s: nat, first: Chunk, i: nat)
      returns (ended: Option<Assembly>)
    requires StartsFrame(socket, s) && first == Parse(socket[s].bytes).value && i < first.total
    requires Reached(socket, s, first, i) && buffer[..] == Filled(socket, s, first, i)
    modifies buffer
    ensures ended.Some? ==> ended.value == Assembled(socket, s)
    ensures ended.None? ==>
      i + 1 < first.total && Reached(socket, s, first, i + 1) && buffer[..] == Filled(socket, s, first, i + 1)
  {
    var data := socket[s + i].bytes[HeaderSize..];
    assert data == Parse(socket[s + i].bytes).value.payload;
    // The final chunk may be short, every other one must be full.
    if !SizeOk(i, first.total, |data|, ChunkSize) {
      AbandonedAt(socket, s, first, i);
      return Some(Abandoned(s + i + 1));
    }
    assert Fits(socket, s, first, i);
    Store(buffer, socket, s, first, i);
    if i == first.total - 1 {
      DeliveredAt(socket, s, first);
      return Some(Delivered(buffer[..], s + first.total));
    }
    ended := NextChunk(socket, s, first, i);
  }

  /** Lines 80-92 of receive.py after chunk i, not the final one, was
      written: read the next datagram and check that it is chunk i + 1;
      if not, the attempt ends as Assembled says. */
  method NextChunk(socket: seq<Datagram>, s: nat, first: Chunk, i: nat) returns (ended: Option<Assembly>)
    requires StartsFrame(socket, s) && first == Parse(socket[s].bytes).value
    requires i + 1 < first.total && forall k | 0 <= k < i + 1 :: Fits(socket, s, first, k)
    ensures ended.Some? ==> ended.value == Assembled(socket, s)
    ensures ended.None? ==>
      s + i + 1 < |socket| && Parse(socket[s + i + 1].bytes).Some? &&
      Follows(Parse(socket[s + i + 1].bytes).value, first, i + 1)
  {
    if s + i + 1 >= |socket| {
      EndedAt(socket, s, first, i + 1);
      return Some(Ended);
    }
    var packet := socket[s + i + 1].bytes;
    if |packet| < HeaderSize {
      ShortAt(socket, s, first, i + 1);
      return Some(Short(s + i + 1));
    }
    var c := Parse(packet).value;
    if c.frameId != first.frameId || c.total != first.total || c.chunkId != i + 1 {
      AbandonedAt(socket, s, first, i + 1);
      return Some(Abandoned(s + i + 2));
    }
    return None;
  }

  /** The ways an attempt ends, by the first chunk that does not fit. */
  lemma AbandonedAt(socket: seq<Datagram>, s: nat, first: Chunk, i: nat)
    requires StartsFrame(socket, s) && first == Parse(socket[s].bytes).value
    requires i <= first.total && forall k | 0 <= k < i :: Fits(socket, s, first, k)
    requires i == first.total == 0 || (i < first.total && !Fits(socket, s, first, i))
    requires s + i < |socket| && Parse(socket[s + i].bytes).Some?
    ensures Assembled(socket, s) == Abandoned(s + i + 1)
  {
    MisfitAt(socket, s, first, 0, i);
  }

  lemma EndedAt(socket: seq<Datagram>, s: nat, first: Chunk, i: nat)
    requires StartsFrame(socket, s) && first == Parse(socket[s].bytes).value
    requires i < first.total && forall k | 0 <= k < i :: Fits(socket, s, first, k)
    requires s + i >= |socket|
    ensures Assembled(socket, s) == Ended
  {
    MisfitAt(socket, s, first, 0, i);
  }

  lemma ShortAt(socket: seq<Datagram>, s: nat, first: Chunk, i: nat)
    requires StartsFrame(socket, s) && first == Parse(socket[s].bytes).value
    requires i < first.total && forall k | 0 <= k < i :: Fits(socket, s, first, k)
    requires s + i < |socket| && Parse(socket[s + i].bytes).None?
    ensures Assembled(socket, s) == Short(s + i)
  {
    MisfitAt(socket, s, first, 0, i);
  }

  lemma DeliveredAt(socket: seq<Datagram>, s: nat, first: Chunk)
    requires StartsFrame(socket, s) && first == Parse(socket[s].bytes).value
    requires first.total >= 1 && forall k | 0 <= k < first.total :: Fits(socket, s, first, k)
    ensures Assembled(socket, s) == Delivered(Filled(socket, s, first, first.total), s + first.total)
  {
    MisfitAt(socket, s, first, 0, first.total);
  }

  /** jpeg_buffer[i * CHUNK_SIZE:i * CHUNK_SIZE + len(data)] = data for
      chunk i, which fits, into the buffer that holds chunks 0..i-1. */
  method Store(buffer: array<byte>, socket: seq<Datagram>, s: nat, first: Chunk, i: nat)
    requires i < first.total && forall k | 0 <= k < i + 1 :: Fits(socket, s, first, k)
    requires buffer[..] == Filled(socket, s, first, i)
    modifies buffer
    ensures buffer[..] == Filled(socket, s, first, i + 1)
  {
    Written(socket, s, first, i);
    WriteSlice(buffer, ChunkSize * i, Payload(socket, s, first, i));
  }

  /** One more chunk that fits appends its payload. */
  lemma PayloadsNext(socket: seq<Datagram>, s: nat, first: Chunk, i: nat)
    requires forall k | 0 <= k < i + 1 :: Fits(socket, s, first, k)
    ensures Payloads(socket, s, first, i + 1) == Payloads(socket, s, first, i) + [Payload(socket, s, first, i)]
  {
    var longer := Payloads(socket, s, first, i + 1);
    var shorter := Payloads(socket, s, first, i) + [Payload(socket, s, first, i)];
    assert |longer| == |shorter|;
    forall k | 0 <= k < i + 1
      ensures longer[k] == shorter[k]
    {
    }
  }

  /** Writing chunk i, which fits, at offset 1400 * i into the buffer that
      holds chunks 0..i-1 gives the buffer that holds chunks 0..i. */
  lemma Written(socket: seq<Datagram>, s: nat, first: Chunk, i: nat)
    requires i < first.total
    requires forall k | 0 <= k < i + 1 :: Fits(socket, s, first, k)
    ensures var buffer := Filled(socket, s, first, i); var p := Payload(socket, s, first, i);
      && ChunkSize * i + |p| <= |buffer|
      && buffer[..ChunkSize * i] + p + buffer[ChunkSize * i + |p|..] == Filled(socket, s, first, i + 1)
  {
    var ps := Payloads(socket, s, first, i);
    var p := Payload(socket, s, first, i);
    FilledLength(socket, s, first, i);
    PayloadsNext(socket, s, first, i);
    assert Fits(socket, s, first, i);
    WriteNext(ps, p, ChunkSize, first.total);
  }

  // ---------------------------------------------------------------------
  // The main loop

  /** A run of receive.py: the buffers handed to ml.process, in order, and
      why the run ended. */
  datatype Reception = Reception(frames: seq<Bytes>, stop: Stop)

  /** The main loop from the unread datagram socket[cursor] on: take the
      newest datagram of the backlog; if it is an index-0 chunk, attempt
      its frame, and in every case go on with the datagram after the last
      one read. */
  function Receiving(socket: seq<Datagram>, cursor: nat): (r: Reception)
    decreases |socket| - cursor
  {
    if cursor >= |socket| then Reception([], EndOfStream)
    else
      var j := Latest(socket, cursor);
      if Parse(socket[j].bytes).None? then Reception([], ShortDatagram(j))
      else if Parse(socket[j].bytes).value.chunkId != 0 then Receiving(socket, j + 1)
      else
        match Assembled(socket, j)
        case Delivered(image, next) =>
          var rest := Receiving(socket, next);
          Reception([image] + rest.frames, rest.stop)
        case Abandoned(next) => Receiving(socket, next)
        case Ended => Reception([], EndOfStream)
        case Short(at) => Reception([], ShortDatagram(at))
  }

  /** The frames handed on before a point of the run, then the rest of
      it. */
  function After(frames: seq<Bytes>, r: Reception): (r': Reception)
  {
    Reception(frames + r.frames, r.stop)
  }

  /** The newest datagram is not an index-0 chunk: it is dropped. */
  lemma ReceivingSkips(socket: seq<Datagram>, cursor: nat)
    requires cursor < |socket|
    requires Parse(socket[Latest(socket, cursor)].bytes).Some? && Parse(socket[Latest(socket, cursor)].bytes).value.chunkId != 0
    ensures Receiving(socket, cursor) == Receiving(socket, Latest(socket, cursor) + 1)
  {
  }

  /** The newest datagram is an index-0 chunk and its frame is handed on:
      the run continues after it. */
  lemma ReceivingDelivers(socket: seq<Datagram>, cursor: nat, image: Bytes, next: nat)
    requires cursor < |socket| && StartsFrame(socket, Latest(socket, cursor))
    requires Assembled(socket, Latest(socket, cursor)) == Delivered(image, next)
    ensures Receiving(socket, cursor) == After([image], Receiving(socket, next))
  {
  }

  /** The newest datagram is an index-0 chunk and its frame is abandoned:
      the run continues after the datagram that broke it. */
  lemma ReceivingAbandons(socket: seq<Datagram>, cursor: nat, next: nat)
    requires cursor < |socket| && StartsFrame(socket, Latest(socket, cursor))
    requires Assembled(socket, Latest(socket, cursor)) == Abandoned(next)
    ensures Receiving(socket, cursor) == Receiving(socket, next)
  {
  }

  /** The newest datagram is an index-0 chunk and the run ends inside its
      frame. */
  lemma ReceivingStops(socket: seq<Datagram>, cursor: nat)
    requires cursor < |socket| && StartsFrame(socket, Latest(socket, cursor))
    ensures Assembled(socket, Latest(socket, cursor)) == Ended ==>
      Receiving(socket, cursor) == Reception([], EndOfStream)
    ensures var a := Assembled(socket, Latest(socket, cursor));
      a.Short? ==> Receiving(socket, cursor) == Reception([], ShortDatagram(a.at))
  {
  }

  /** The run ends here. */
  lemma ReceivingEnds(socket: seq<Datagram>, cursor: nat)
    ensures cursor >= |socket| ==> Receiving(socket, cursor) == Reception([], EndOfStream)
    ensures cursor < |socket| && Parse(socket[Latest(socket, cursor)].bytes).None? ==>
      Receiving(socket, cursor) == Reception([], ShortDatagram(Latest(socket, cursor)))
  {
  }

  /** Handing on some frames, then some more, is handing on all of them. */
  lemma AfterAfter(frames: seq<Bytes>, more: seq<Bytes>, r: Reception)
    ensures After(frames, After(more, r)) == After(frames + more, r)
    ensures After(frames, Reception([], r.stop)) == Reception(frames, r.stop)
  {
    assert frames + (more + r.frames) == (frames + more) + r.frames;
    assert frames + [] == frames;
  }

  /** Lines 60-92 of receive.py once the newest datagram, socket[j], is an
      index-0 chunk: the frame attempt, and where the outer loop goes on.
      Either the run goes on at `next` having handed on `image` (empty, or
      the one delivered buffer), or it ends with `stop`. */
  method Attempt(socket: seq<Datagram>, cursor: nat, j: nat) returns (image: seq<Bytes>, next: nat, stop: Option<Stop>)
    requires cursor < |socket| && j == Latest(socket, cursor) && StartsFrame(socket, j)
    ensures |image| <= 1
    ensures stop.None? ==> cursor < next <= |socket| && Receiving(socket, cursor) == After(image, Receiving(socket, next))
    ensures stop.Some? ==> Receiving(socket, cursor) == Reception([], stop.value)
  {
    var a := AssembleFrame(socket, j);
    ReceivingStops(socket, cursor);
    match a {
      case Delivered(buffer, n) =>
        ReceivingDelivers(socket, cursor, buffer, n);
        return [buffer], n, None;
      case Abandoned(n) =>
        ReceivingAbandons(socket, cursor, n);
        assert [] + Receiving(socket, n).frames == Receiving(socket, n).frames;
        return [], n, None;
      case Ended =>
        return [], 0, Some(EndOfStream);
      case Short(at) =>
        return [], 0, Some(ShortDatagram(at));
    }
  }

  /** One pass of the outer loop of receive.py after `frames` were handed
      on, `whole` being the run as a whole: the run either ends with
      `stop`, having handed on `frames'`, or goes on from cursor' having
      handed on `frames'`. */
  method Advance(socket: seq<Datagram>, ghost whole: Reception, frames: seq<Bytes>, cursor: nat)
      returns (frames': seq<Bytes>, cursor': nat, stop: Option<Stop>)
    requires cursor <= |socket| && whole == After(frames, Receiving(socket, cursor))
    ensures stop.Some? ==> whole == Reception(frames', stop.value)
    ensures stop.None? ==> cursor < cursor' <= |socket| && whole == After(frames', Receiving(socket, cursor'))
  {
    ReceivingEnds(socket, cursor);
    AfterAfter(frames, [], Receiving(socket, cursor));
    var latest := LatestPacket(socket, cursor);
    if latest.None? {
      return frames, cursor, Some(EndOfStream);
    }
    var j := latest.value;
    var packet := socket[j].bytes;
    if |packet| < HeaderSize {
      return frames, cursor, Some(ShortDatagram(j));
    }
    var c := Parse(packet).value;
    if c.chunkId != 0 {
      ReceivingSkips(socket, cursor);
      return frames, j + 1, None;
    }
    var image, next, ended := Attempt(socket, cursor, j);
    if ended.Some? {
      return frames, cursor, ended;
    }
    AfterAfter(frames, image, Receiving(socket, next));
    return frames + image, next, None;
  }

  /** Lines 50-92 of receive.py over the stream `socket`. */
  method Run(socket: seq<Datagram>) returns (frames: seq<Bytes>, stop: Stop)
    ensures Reception(frames, stop) == Receiving(socket, 0)
  {
    frames := [];
    var cursor := 0;
    ghost var whole := Receiving(socket, 0);
    assert After([], whole) == whole;
    while true
      invariant cursor <= |socket| && whole == After(frames, Receiving(socket, cursor))
      decreases |socket| - cursor
    {
      var ended;
      frames, cursor, ended := Advance(socket, whole, frames, cursor);
      if ended.Some? {
        return frames, ended.value;
      }
    }
  }

  // ---------------------------------------------------------------------
  // Properties of a run

  /** The datagrams from s on hold a whole frame: an index-0 chunk
      announcing n >= 1 chunks, followed by chunks 1..n-1 of the same frame
      and count, each obeying the size rule. */
  predicate Complete(socket: seq<Datagram>, s: nat)
  {
    && StartsFrame(socket, s)
    && var first := Parse(socket[s].bytes).value;
    && first.total >= 1
    && forall k | 0 <= k < first.total :: Fits(socket, s, first, k)
  }

  /** The buffer a whole frame fills. */
  function FrameAt(socket: seq<Datagram>, s: nat): (image: Bytes)
    requires Complete(socket, s)
    ensures |image| == ChunkSize * Parse(socket[s].bytes).value.total
  {
    var first := Parse(socket[s].bytes).value;
    Filled(socket, s, first, first.total)
  }

  /** What a delivered buffer holds: chunk i of the frame at offset
      1400 * i, and zeros after the last chunk. */
  lemma FrameAtLayout(socket: seq<Datagram>, s: nat)
    requires Complete(socket, s)
    ensures var first := Parse(socket[s].bytes).value; var image := FrameAt(socket, s);
      var ps := Payloads(socket, s, first, first.total);
      && |Concat(ps)| == ChunkSize * (first.total - 1) + |ps[first.total - 1]|
      && image[..|Concat(ps)|] == Concat(ps)
      && (forall t | |Concat(ps)| <= t < |image| :: image[t] == 0)
      && forall i | 0 <= i < first.total ::
           ChunkSize * i + |ps[i]| <= |image| && image[ChunkSize * i..ChunkSize * i + |ps[i]|] == ps[i]
  {
    var first := Parse(socket[s].bytes).value;
    var ps := Payloads(socket, s, first, first.total);
    forall k | 0 <= k < first.total ensures SizeOk(k, |ps|, |ps[k]|, ChunkSize) {
      assert Fits(socket, s, first, k);
    }
    FrameLayout(ps, ChunkSize);
  }

  /** `image` is the buffer of a whole frame found in the stream at or
      after index c. */
  ghost predicate WholeFrom(socket: seq<Datagram>, c: nat, image: Bytes)
  {
    exists s | c <= s < |socket| :: Complete(socket, s) && image == FrameAt(socket, s)
  }

  lemma WholeFromEarlier(socket: seq<Datagram>, c: nat, c': nat, image: Bytes)
    requires c <= c' && WholeFrom(socket, c', image)
    ensures WholeFrom(socket, c, image)
  {
    var s :| c' <= s < |socket| && Complete(socket, s) && image == FrameAt(socket, s);
  }

  /** Every one of `frames` is the buffer of a whole frame found at or
      after index c. */
  ghost predicate AllWholeFrom(socket: seq<Datagram>, c: nat, frames: seq<Bytes>)
  {
    forall k | 0 <= k < |frames| :: WholeFrom(socket, c, frames[k])
  }

  lemma AllWholeFromEarlier(socket: seq<Datagram>, c: nat, c': nat, frames: seq<Bytes>)
    requires c <= c' && AllWholeFrom(socket, c', frames)
    ensures AllWholeFrom(socket, c, frames)
  {
    forall k | 0 <= k < |frames| ensures WholeFrom(socket, c, frames[k]) {
      WholeFromEarlier(socket, c, c', frames[k]);
    }
  }

  lemma AllWholeFromCons(socket: seq<Datagram>, c: nat, image: Bytes, frames: seq<Bytes>)
    requires WholeFrom(socket, c, image) && AllWholeFrom(socket, c, frames)
    ensures AllWholeFrom(socket, c, [image] + frames)
  {
    forall k | 0 <= k < |[image] + frames| ensures WholeFrom(socket, c, ([image] + frames)[k]) {
      if k > 0 {
        assert ([image] + frames)[k] == frames[k - 1];
      }
    }
  }

  /** Every buffer a run hands on is the buffer of a whole frame found in
      the stream, at or after where the run started. */
  lemma {:induction false} ReceivedFramesAreWhole(socket: seq<Datagram>, cursor: nat)
    ensures AllWholeFrom(socket, cursor, Receiving(socket, cursor).frames)
    decreases |socket| - cursor, 1
  {
    if cursor < |socket| {
      var j := Latest(socket, cursor);
      if Parse(socket[j].bytes).Some? {
        if Parse(socket[j].bytes).value.chunkId != 0 {
          ReceivingSkips(socket, cursor);
          ReceivedFramesAreWhole(socket, j + 1);
          AllWholeFromEarlier(socket, cursor, j + 1, Receiving(socket, j + 1).frames);
        } else {
          AttemptFramesAreWhole(socket, cursor);
        }
      }
    }
  }

  lemma {:induction false} AttemptFramesAreWhole(socket: seq<Datagram>, cursor: nat)
    requires cursor < |socket| && StartsFrame(socket, Latest(socket, cursor))
    ensures AllWholeFrom(socket, cursor, Receiving(socket, cursor).frames)
    decreases |socket| - cursor, 0
  {
    var j := Latest(socket, cursor);
    AssembledSpec(socket, j);
    ReceivingStops(socket, cursor);
    match Assembled(socket, j) {
      case Delivered(image, next) =>
        ReceivingDelivers(socket, cursor, image, next);
        ReceivedFramesAreWhole(socket, next);
        AllWholeFromEarlier(socket, cursor, next, Receiving(socket, next).frames);
        assert WholeFrom(socket, cursor, image) by {
          assert cursor <= j < |socket| && Complete(socket, j) && image == FrameAt(socket, j);
        }
        AllWholeFromCons(socket, cursor, image, Receiving(socket, next).frames);
        assert [] + [image] == [image];
      case Abandoned(next) =>
        ReceivingAbandons(socket, cursor, next);
        ReceivedFramesAreWhole(socket, next);
        AllWholeFromEarlier(socket, cursor, next, Receiving(socket, next).frames);
      case Ended =>
      case Short(_) =>
    }
  }

  /** One attempt: the frame is handed on exactly when it is whole, and
      then as the buffer it fills. Otherwise the attempt stops at the first
      chunk that does not fit, consuming the datagram that broke it (a
      frame of no chunks reads nothing more): the stream ran out there,
      that datagram is too short for a header, or it is a wrong frame id,
      count or index or breaks the size rule. */
  lemma AssembledSpec(socket: seq<Datagram>, s: nat)
    requires StartsFrame(socket, s)
    ensures var first := Parse(socket[s].bytes).value; var a := Assembled(socket, s);
      && (a.Delivered? <==> Complete(socket, s))
      && (a.Delivered? ==> a == Delivered(FrameAt(socket, s), s + first.total))
      && (a.Abandoned? ==>
            || (first.total == 0 && a.next == s + 1)
            || (&& a.next - 1 - s < first.total
                && (forall k | 0 <= k < a.next - 1 - s :: Fits(socket, s, first, k))
                && Parse(socket[a.next - 1].bytes).Some?
                && !Fits(socket, s, first, a.next - 1 - s)))
      && (a.Ended? ==>
            && |socket| - s < first.total
            && forall k | 0 <= k < |socket| - s :: Fits(socket, s, first, k))
      && (a.Short? ==>
            && s <= a.at < |socket| && a.at - s < first.total
            && (forall k | 0 <= k < a.at - s :: Fits(socket, s, first, k))
            && Parse(socket[a.at].bytes).None?)
  {
    AssembledDelivers(socket, s);
    AssembledAbandons(socket, s);
    AssembledEnds(socket, s);
    AssembledShort(socket, s);
  }

  lemma AssembledDelivers(socket: seq<Datagram>, s: nat)
    requires StartsFrame(socket, s)
    ensures var a := Assembled(socket, s);
      && (a.Delivered? <==> Complete(socket, s))
      && (a.Delivered? ==> a == Delivered(FrameAt(socket, s), s + Parse(socket[s].bytes).value.total))
  {
  }

  lemma AssembledAbandons(socket: seq<Datagram>, s: nat)
    requires StartsFrame(socket, s)
    ensures var first := Parse(socket[s].bytes).value; var a := Assembled(socket, s);
      a.Abandoned? ==>
        || (first.total == 0 && a.next == s + 1)
        || (&& a.next - 1 - s < first.total
            && (forall k | 0 <= k < a.next - 1 - s :: Fits(socket, s, first, k))
            && Parse(socket[a.next - 1].bytes).Some?
            && !Fits(socket, s, first, a.next - 1 - s))
  {
  }

  lemma AssembledEnds(socket: seq<Datagram>, s: nat)
    requires StartsFrame(socket, s)
    ensures var first := Parse(socket[s].bytes).value; var a := Assembled(socket, s);
      a.Ended? ==>
        && |socket| - s < first.total
        && forall k | 0 <= k < |socket| - s :: Fits(socket, s, first, k)
  {
  }

  lemma AssembledShort(socket: seq<Datagram>, s: nat)
    requires StartsFrame(socket, s)
    ensures var first := Parse(socket[s].bytes).value; var a := Assembled(socket, s);
      a.Short? ==>
        && s <= a.at < |socket| && a.at - s < first.total
        && (forall k | 0 <= k < a.at - s :: Fits(socket, s, first, k))
        && Parse(socket[a.at].bytes).None?
  {
  }

  /** A whole frame whose index-0 chunk is the newest datagram when the
      reader looks is the next buffer handed on. */
  lemma WholeFrameDelivered(socket: seq<Datagram>, cursor: nat)
    requires Complete(socket, cursor)
    requires cursor + 1 == |socket| || !socket[cursor + 1].queued
    ensures var r := Receiving(socket, cursor); r.frames != [] && r.frames[0] == FrameAt(socket, cursor)
  {
    LatestUnique(socket, cursor, cursor);
  }
}
