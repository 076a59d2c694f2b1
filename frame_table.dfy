/** The buffered multi-frame table of catch.py and catch-and-display.py
    (the two scripts share this logic line for line): a dictionary from
    frame id to the chunks received so far, the chunk count announced by the
    latest chunk, and the time of the latest chunk. A frame is emitted, and
    forgotten, as soon as the number of stored chunk ids equals the announced
    count; records are dropped by a sweep when no chunk arrived for more than
    five seconds. Time is an explicit parameter. */
module FrameTable {
  import opened Wire

  /** RECEIVE_TIMEOUT, in seconds. */
  const ReceiveTimeout: real := 5.0

  /** One in-flight frame: {'chunks': ..., 'total': ..., 'timestamp': ...}. */
  datatype Record = Record(chunks: map<uint16, Bytes>, total: uint16, timestamp: real)

  type Frames = map<uint16, Record>

  /** What handling one datagram leads to. MissingChunk is the KeyError
      that the ordered join raises when the count of stored ids reached the
      announced total although some id below it is absent: nothing catches
      it, so the script stops. */
  datatype Outcome =
    | TooShort
    | Stored(frameId: uint16)
    | Completed(frameId: uint16, data: Bytes)
    | MissingChunk(frameId: uint16, index: uint16)

  datatype Step = Step(frames: Frames, outcome: Outcome)

  datatype Joined = Joined(data: Bytes) | Missing(index: uint16)

  /** The chunks 0..n-1 in index order. */
  function Ordered(chunks: map<uint16, Bytes>, n: nat): (ps: seq<Bytes>)
    requires n <= 0x1_0000
    requires forall i: uint16 | i < n :: i in chunks
  {
    seq(n, i requires 0 <= i < n => chunks[i])
  }

  /** [chunks[i] for i in range(n)] followed by b''.join: the chunks in
      index order, or the first index the comprehension fails on (its
      contract is JoinSpec). */
  function Join(chunks: map<uint16, Bytes>, n: nat): (r: Joined)
    requires n <= 0x1_0000
  {
    if n == 0 then Joined([])
    else
      var prefix := Join(chunks, n - 1);
      if prefix.Missing? then prefix
      else if n - 1 in chunks then Joined(prefix.data + chunks[n - 1])
      else Missing(n - 1)
  }

  /** The join succeeds exactly when ids 0..n-1 are all present, and then
      yields their payloads in index order; otherwise it names the first
      absent id. */
  lemma {:induction false} JoinSpec(chunks: map<uint16, Bytes>, n: nat)
    requires n <= 0x1_0000
    ensures Join(chunks, n).Joined? <==> forall i: uint16 | i < n :: i in chunks
    ensures Join(chunks, n).Missing? ==>
      var i := Join(chunks, n).index; i < n && i !in chunks && forall i': uint16 | i' < i :: i' in chunks
    ensures Join(chunks, n).Joined? ==> Join(chunks, n).data == Concat(Ordered(chunks, n))
  {
    if n > 0 {
      JoinSpec(chunks, n - 1);
      if Join(chunks, n - 1).Joined? && n - 1 in chunks {
        assert Ordered(chunks, n)[..n - 1] == Ordered(chunks, n - 1);
      }
    }
  }

  /** The chunks already stored for a frame id; a fresh defaultdict record
      has none. */
  function Known(frames: Frames, frameId: uint16): map<uint16, Bytes>
  {
    if frameId in frames then frames[frameId].chunks else map[]
  }

  /** Lines 50-64 of catch.py for a parsed chunk: store the payload under
      its id, overwrite total and timestamp, and complete the frame when the
      number of stored ids equals this chunk's total. */
  function IngestChunk(frames: Frames, c: Chunk, now: real): (s: Step)
  {
    var chunks := Known(frames, c.frameId)[c.chunkId := c.payload];
    var rec := Record(chunks, c.total, now);
    if |chunks| == c.total then
      match Join(chunks, c.total)
      case Joined(data) => Step(frames - {c.frameId}, Completed(c.frameId, data))
      case Missing(i) => Step(frames[c.frameId := rec], MissingChunk(c.frameId, i))
    else Step(frames[c.frameId := rec], Stored(c.frameId))
  }

  /** One received datagram: too short for the header is skipped. */
  function Ingested(frames: Frames, packet: Bytes, now: real): (s: Step)
  {
    match Parse(packet)
    case None => Step(frames, TooShort)
    case Some(c) => IngestChunk(frames, c, now)
  }

  predicate Stale(rec: Record, now: real)
  {
    now - rec.timestamp > ReceiveTimeout
  }

  /** The table after the sweep that runs on a receive timeout. */
  function Pruned(frames: Frames, now: real): (r: Frames)
  {
    map f | f in frames && !Stale(frames[f], now) :: frames[f]
  }

  /** No stored record is complete: every record that reached its count
      was emitted and deleted. */
  ghost predicate AllIncomplete(frames: Frames)
  {
    forall f | f in frames :: |frames[f].chunks| != frames[f].total
  }

  /** The frames dictionary, updated in place by the receive loop. */
  class Table {
    var frames: Frames

    constructor ()
      ensures frames == map[]
    {
      frames := map[];
    }

    /** Handle one datagram received at time `now`. */
    method Ingest(packet: Bytes, now: real) returns (r: Outcome)
      modifies this
      ensures Step(frames, r) == Ingested(old(frames), packet, now)
    {
      if |packet| < HeaderSize {
        return TooShort;
      }
      var c := Parse(packet).value;
      if c.frameId !in frames {
        frames := frames[c.frameId := Record(map[], 0, now)];
      }
      var rec := frames[c.frameId];
      rec := rec.(chunks := rec.chunks[c.chunkId := c.payload]);
      rec := rec.(total := c.total);
      rec := rec.(timestamp := now);
      frames := frames[c.frameId := rec];
      if |rec.chunks| != c.total {
        return Stored(c.frameId);
      }
      var joined := Join(rec.chunks, c.total);
      if joined.Missing? {
        return MissingChunk(c.frameId, joined.index);
      }
      frames := frames - {c.frameId};
      r := Completed(c.frameId, joined.data);
    }

    /** for fid in list(frames): delete the record if it is stale. */
    method Sweep(now: real)
      modifies this
      ensures frames == Pruned(old(frames), now)
    {
      ghost var start := frames;
      var pending := frames.Keys;
      while pending != {}
        invariant pending <= start.Keys
        invariant forall f :: f in frames <==> f in start && (f in pending || !Stale(start[f], now))
        invariant forall f | f in frames :: frames[f] == start[f]
        decreases pending
      {
        var fid :| fid in pending;
        if Stale(frames[fid], now) {
          frames := frames - {fid};
        }
        pending := pending - {fid};
      }
      assert frames.Keys == Pruned(start, now).Keys;
    }
  }

  // ---------------------------------------------------------------------
  // Properties of one step

  /** A datagram shorter than the header changes nothing. */
  lemma ShortPacketIgnored(frames: Frames, packet: Bytes, now: real)
    requires |packet| < HeaderSize
    ensures Ingested(frames, packet, now) == Step(frames, TooShort)
  {
  }

  /** Ingesting a chunk touches only its own frame id's record: the record
      is created if absent, the payload is stored under the chunk id
      (earlier payloads under other ids are kept), total and timestamp are
      overwritten; a completed record is deleted. */
  lemma IngestTouchesOwnFrameOnly(frames: Frames, c: Chunk, now: real)
    ensures var s := IngestChunk(frames, c, now);
      && (forall f | f != c.frameId :: (f in s.frames <==> f in frames))
      && (forall f | f != c.frameId && f in s.frames :: s.frames[f] == frames[f])
      && (s.outcome.Completed? <==> c.frameId !in s.frames)
      && (c.frameId in s.frames ==>
            && s.frames[c.frameId].total == c.total
            && s.frames[c.frameId].timestamp == now
            && s.frames[c.frameId].chunks.Keys == Known(frames, c.frameId).Keys + {c.chunkId}
            && s.frames[c.frameId].chunks[c.chunkId] == c.payload
            && forall i | i in Known(frames, c.frameId) && i != c.chunkId ::
                 s.frames[c.frameId].chunks[i] == Known(frames, c.frameId)[i])
  {
    IngestKeepsOthers(frames, c, now);
    IngestUpdatesOwn(frames, c, now);
  }

  lemma IngestKeepsOthers(frames: Frames, c: Chunk, now: real)
    ensures var s := IngestChunk(frames, c, now);
      && (forall f | f != c.frameId :: (f in s.frames <==> f in frames))
      && (forall f | f != c.frameId && f in s.frames :: s.frames[f] == frames[f])
      && (s.outcome.Completed? <==> c.frameId !in s.frames)
  {
  }

  lemma IngestUpdatesOwn(frames: Frames, c: Chunk, now: real)
    ensures var s := IngestChunk(frames, c, now); var known := Known(frames, c.frameId);
      c.frameId in s.frames ==>
        && s.frames[c.frameId] == Record(known[c.chunkId := c.payload], c.total, now)
        && s.frames[c.frameId].chunks.Keys == known.Keys + {c.chunkId}
        && s.frames[c.frameId].chunks[c.chunkId] == c.payload
        && forall i | i in known && i != c.chunkId :: s.frames[c.frameId].chunks[i] == known[i]
  {
  }

  /** Completion is decided against the total announced by the chunk just
      received, whatever earlier chunks announced: the frame completes
      exactly when the distinct stored ids number that total and are
      0..total-1. */
  lemma CompletionUsesLatestTotal(frames: Frames, c: Chunk, now: real)
    ensures var chunks := Known(frames, c.frameId)[c.chunkId := c.payload];
      IngestChunk(frames, c, now).outcome.Completed? <==>
        |chunks| == c.total && forall i: uint16 | i < c.total :: i in chunks
  {
    JoinSpec(Known(frames, c.frameId)[c.chunkId := c.payload], c.total);
  }

  /** Re-delivering a chunk id that an incomplete record already holds
      overwrites its payload, leaves the number of stored ids as it was,
      and cannot complete the frame when the announced total is unchanged. */
  lemma RedeliveryIsIdempotent(frames: Frames, c: Chunk, now: real)
    requires c.frameId in frames && c.chunkId in frames[c.frameId].chunks
    requires AllIncomplete(frames) && frames[c.frameId].total == c.total
    ensures var s := IngestChunk(frames, c, now);
      && s.outcome == Stored(c.frameId)
      && |s.frames[c.frameId].chunks| == |frames[c.frameId].chunks|
      && s.frames[c.frameId].chunks[c.chunkId] == c.payload
  {
    var old_ := frames[c.frameId].chunks;
    assert old_[c.chunkId := c.payload].Keys == old_.Keys;
  }

  /** A set of ids below n that has n members holds every id below n. */
  lemma {:induction false} FullRange(keys: set<uint16>, n: nat)
    requires n <= 0x1_0000
    requires forall i | i in keys :: i < n
    requires |keys| == n
    ensures forall i: uint16 | i < n :: i in keys
  {
    if n > 0 {
      if n - 1 in keys {
        FullRange(keys - {n - 1}, n - 1);
      } else {
        BoundedSize(keys, n - 1);
        assert false;
      }
    }
  }

  /** A set of ids below m has at most m members. */
  lemma {:induction false} BoundedSize(keys: set<uint16>, m: nat)
    requires m <= 0x1_0000
    requires forall i | i in keys :: i < m
    ensures |keys| <= m
  {
    if m > 0 {
      BoundedSize(keys - {m - 1}, m - 1);
    } else {
      assert keys == {};
    }
  }

  /** When every stored id and the new one lie below the announced total,
      the join never fails: the latent KeyError needs an out-of-range id. */
  lemma InRangeNeverFaults(frames: Frames, c: Chunk, now: real)
    requires c.chunkId < c.total
    requires forall i | i in Known(frames, c.frameId) :: i < c.total
    ensures !IngestChunk(frames, c, now).outcome.MissingChunk?
  {
    var chunks := Known(frames, c.frameId)[c.chunkId := c.payload];
    if |chunks| == c.total {
      FullRange(chunks.Keys, c.total);
      JoinSpec(chunks, c.total);
    }
  }

  /** The latent fault: chunk ids 0 and 5 of a frame announcing 2 chunks
      make the count reach 2 with id 1 missing, and the join fails. */
  lemma OutOfRangeIdFaults(now: real)
    ensures var first := IngestChunk(map[], Chunk(7, 0, 2, [1]), now);
      && first.outcome == Stored(7)
      && IngestChunk(first.frames, Chunk(7, 5, 2, [2]), now).outcome == MissingChunk(7, 1)
  {
    var first := IngestChunk(map[], Chunk(7, 0, 2, [1]), now);
    var chunks := first.frames[7].chunks[5 := [2]];
    assert chunks.Keys == {0, 5};
    assert Join(chunks, 1) == Joined([1]);
  }

  /** Ingesting keeps every stored record incomplete, unless the join
      failed (and the script stopped). */
  lemma IngestKeepsIncomplete(frames: Frames, c: Chunk, now: real)
    requires AllIncomplete(frames)
    ensures var s := IngestChunk(frames, c, now);
      s.outcome.MissingChunk? || AllIncomplete(s.frames)
  {
  }

  // ---------------------------------------------------------------------
  // Properties of the sweep

  /** A record that was swept as stale is gone for good: a chunk that
      arrives for it afterwards starts a record holding only itself, so the
      chunks received before the sweep never join a frame. */
  lemma SweptFrameStartsOver(frames: Frames, now: real, c: Chunk, later: real)
    requires c.frameId in frames && Stale(frames[c.frameId], now)
    ensures var s := IngestChunk(Pruned(frames, now), c, later);
      && (s.outcome.Completed? ==> c.total == 1 && s.outcome.data == c.payload)
      && (c.frameId in s.frames ==> s.frames[c.frameId].chunks == map[c.chunkId := c.payload])
  {
    FreshRecord(Pruned(frames, now), c, later);
  }

  /** A chunk for a frame id the table does not hold starts a record
      holding only itself; it completes the frame only when it is chunk 0
      of a one-chunk frame. */
  lemma FreshRecord(frames: Frames, c: Chunk, now: real)
    requires c.frameId !in frames
    ensures var s := IngestChunk(frames, c, now);
      && (s.outcome.Completed? <==> c.total == 1 && c.chunkId == 0)
      && (s.outcome.Completed? ==> s.outcome.data == c.payload)
      && (c.frameId in s.frames ==> s.frames[c.frameId].chunks == map[c.chunkId := c.payload])
  {
    var chunks := map[c.chunkId := c.payload];
    assert Known(frames, c.frameId) == map[];
    JoinSpec(chunks, 1);
    if c.chunkId == 0 {
      assert Ordered(chunks, 1) == [c.payload];
      assert Concat([c.payload]) == Concat([]) + [c.payload][0];
    }
  }


  /** Sweeping twice at the same time removes nothing more. */
  lemma SweepIdempotent(frames: Frames, now: real)
    ensures Pruned(Pruned(frames, now), now) == Pruned(frames, now)
  {
  }

  /** The sweep keeps every stored record incomplete. */
  lemma SweepKeepsIncomplete(frames: Frames, now: real)
    requires AllIncomplete(frames)
    ensures AllIncomplete(Pruned(frames, now))
  {
  }

  // ---------------------------------------------------------------------
  // The receive loop as a whole

  /** What sock.recvfrom yields in one iteration: a datagram received at
      time `at`, or a socket timeout noticed at time `at`. */
  datatype Event = Arrived(packet: Bytes, at: real) | TimedOut(at: real)

  /** The effect of one loop iteration: the new table, the frame it
      completed if any, and whether the script stops (a failed join). */
  datatype Handled = Handled(frames: Frames, completed: seq<Bytes>, stop: bool)

  function Handle(frames: Frames, e: Event): (h: Handled)
    ensures |h.completed| <= 1
  {
    match e
    case TimedOut(now) => Handled(Pruned(frames, now), [], false)
    case Arrived(packet, now) =>
      var s := Ingested(frames, packet, now);
      match s.outcome
      case MissingChunk(_, _) => Handled(s.frames, [], true)
      case Completed(_, data) => Handled(s.frames, [data], false)
      case _ => Handled(s.frames, [], false)
  }

  /** The state after a run of the loop: the table, the frames completed
      in completion order, and whether the join failed (which ends the
      script). */
  datatype Trace = Trace(frames: Frames, completed: seq<Bytes>, crashed: bool)

  function Replay(frames: Frames, events: seq<Event>): (t: Trace)
    decreases |events|
  {
    if events == [] then Trace(frames, [], false)
    else
      var h := Handle(frames, events[0]);
      if h.stop then Trace(h.frames, h.completed, true)
      else
        var rest := Replay(h.frames, events[1..]);
        Trace(rest.frames, h.completed + rest.completed, rest.crashed)
  }

  /** The frames completed before a point of the run, then the rest of it. */
  function Resume(done: seq<Bytes>, t: Trace): (r: Trace)
  {
    Trace(t.frames, done + t.completed, t.crashed)
  }

  /** One iteration that does not stop the script, then the rest of the run. */
  lemma ReplayContinues(frames: Frames, events: seq<Event>, h: Handled)
    requires events != [] && h == Handle(frames, events[0]) && !h.stop
    ensures Replay(frames, events) == Resume(h.completed, Replay(h.frames, events[1..]))
  {
  }

  /** An iteration that stops the script ends the run. */
  lemma ReplayStops(frames: Frames, events: seq<Event>, h: Handled)
    requires events != [] && h == Handle(frames, events[0]) && h.stop
    ensures Replay(frames, events) == Trace(h.frames, h.completed, true)
  {
  }

  /** One received datagram, in terms of the step it takes on the table. */
  lemma HandleArrived(frames: Frames, packet: Bytes, now: real, s: Step)
    requires s == Ingested(frames, packet, now)
    ensures Handle(frames, Arrived(packet, now)) ==
      Handled(s.frames, if s.outcome.Completed? then [s.outcome.data] else [], s.outcome.MissingChunk?)
  {
  }

  /** The datagram a sender produces for a chunk, in terms of the step it
      takes on the table. */
  lemma HandleChunk(frames: Frames, c: Chunk, now: real, s: Step)
    requires s == IngestChunk(frames, c, now)
    ensures Handle(frames, Arrived(Encode(c), now)) ==
      Handled(s.frames, if s.outcome.Completed? then [s.outcome.data] else [], s.outcome.MissingChunk?)
  {
    ParseEncode(c);
    HandleArrived(frames, Encode(c), now, s);
  }

  /** The frames emitted by a run of iterations, in order. */
  function Flatten(outs: seq<seq<Bytes>>): (r: seq<Bytes>)
  {
    if outs == [] then [] else outs[0] + Flatten(outs[1..])
  }

  lemma {:induction false} FlattenAppend(outs: seq<seq<Bytes>>, o: seq<Bytes>)
    ensures Flatten(outs + [o]) == Flatten(outs) + o
    decreases |outs|
  {
    if outs != [] {
      assert (outs + [o])[1..] == outs[1..] + [o];
      FlattenAppend(outs[1..], o);
    } else {
      assert Flatten([o]) == o + Flatten([]);
    }
  }

  /** Iterations that emit nothing, then one that emits x. */
  lemma {:induction false} FlattenLast(outs: seq<seq<Bytes>>, x: Bytes)
    requires |outs| >= 1 && outs[|outs| - 1] == [x]
    requires forall j | 0 <= j < |outs| - 1 :: outs[j] == []
    ensures Flatten(outs) == [x]
  {
    if |outs| > 1 {
      FlattenLast(outs[1..], x);
    }
  }

  /** The first |outs| events of a run, read as a chain of iterations:
      the j-th event takes states[j] to states[j + 1], emitting outs[j] and
      not stopping. */
  ghost predicate Chained(states: seq<Frames>, events: seq<Event>, outs: seq<seq<Bytes>>)
  {
    && |states| == |outs| + 1 && |outs| <= |events|
    && forall j | 0 <= j < |outs| :: Handle(states[j], events[j]) == Handled(states[j + 1], outs[j], false)
  }

  /** A chain without its first iteration. */
  lemma ChainTail(states: seq<Frames>, events: seq<Event>, outs: seq<seq<Bytes>>)
    requires Chained(states, events, outs) && outs != []
    ensures Chained(states[1..], events[1..], outs[1..])
  {
    forall j | 0 <= j < |outs| - 1
      ensures Handle(states[1..][j], events[1..][j]) == Handled(states[1..][j + 1], outs[1..][j], false)
    {
      assert states[1..][j] == states[j + 1] && states[1..][j + 1] == states[j + 2];
      assert events[1..][j] == events[j + 1] && outs[1..][j] == outs[j + 1];
    }
  }

  /** A chain grows by one non-stopping iteration. */
  lemma ChainExtend(states: seq<Frames>, events: seq<Event>, outs: seq<seq<Bytes>>, h: Handled)
    requires Chained(states, events, outs) && |outs| < |events|
    requires h == Handle(states[|outs|], events[|outs|]) && !h.stop
    ensures Chained(states + [h.frames], events, outs + [h.completed])
  {
    var states', outs' := states + [h.frames], outs + [h.completed];
    forall j | 0 <= j < |outs'| ensures Handle(states'[j], events[j]) == Handled(states'[j + 1], outs'[j], false) {
      if j < |outs| {
        assert states'[j] == states[j] && states'[j + 1] == states[j + 1] && outs'[j] == outs[j];
      }
    }
  }

  /** A run reads off a chain of iterations that covers all its events:
      it ends in the last state, having emitted all of outs in order. */
  lemma {:induction false} ReplayChain(states: seq<Frames>, events: seq<Event>, outs: seq<seq<Bytes>>)
    requires Chained(states, events, outs) && |outs| == |events|
    ensures Replay(states[0], events) == Trace(states[|events|], Flatten(outs), false)
    decreases |events|
  {
    if events != [] {
      var h := Handle(states[0], events[0]);
      assert h == Handled(states[1], outs[0], false);
      ReplayContinues(states[0], events, h);
      ChainTail(states, events, outs);
      ReplayChain(states[1..], events[1..], outs[1..]);
    }
  }

  /** A run whose chain of iterations is followed by a stopping one ends
      there, crashed. */
  lemma {:induction false} ReplayChainStop(states: seq<Frames>, events: seq<Event>, outs: seq<seq<Bytes>>, h: Handled)
    requires Chained(states, events, outs) && |outs| < |events|
    requires h == Handle(states[|outs|], events[|outs|]) && h.stop
    ensures Replay(states[0], events) == Trace(h.frames, Flatten(outs) + h.completed, true)
    decreases |outs|
  {
    if outs == [] {
      ReplayStops(states[0], events, h);
    } else {
      var h0 := Handle(states[0], events[0]);
      assert h0 == Handled(states[1], outs[0], false);
      ReplayContinues(states[0], events, h0);
      ChainTail(states, events, outs);
      assert states[1..][|outs| - 1] == states[|outs|] && events[1..][|outs| - 1] == events[|outs|];
      ReplayChainStop(states[1..], events[1..], outs[1..], h);
      assert states[1..][0] == states[1];
      assert outs[0] + (Flatten(outs[1..]) + h.completed) == Flatten(outs) + h.completed;
    }
  }

  /** A chain of iterations is a prefix of the run: what it emitted comes
      first, then whatever the remaining events produce from its last
      state. */
  lemma {:induction false} ReplayChainPrefix(states: seq<Frames>, events: seq<Event>, outs: seq<seq<Bytes>>)
    requires Chained(states, events, outs)
    ensures Replay(states[0], events) == Resume(Flatten(outs), Replay(states[|outs|], events[|outs|..]))
    decreases |outs|
  {
    var n := |outs|;
    if n == 0 {
      assert events[0..] == events;
    } else {
      var rest := Replay(states[n], events[n..]);
      var h0 := Handle(states[0], events[0]);
      assert h0 == Handled(states[1], outs[0], false);
      ReplayContinues(states[0], events, h0);
      ChainTail(states, events, outs);
      ReplayChainPrefix(states[1..], events[1..], outs[1..]);
      assert states[1..][n - 1] == states[n] && events[1..][n - 1..] == events[n..];
      assert Replay(states[1], events[1..]) == Resume(Flatten(outs[1..]), rest);
      ResumeTwice(outs[0], Flatten(outs[1..]), rest);
    }
  }

  lemma ResumeTwice(a: seq<Bytes>, b: seq<Bytes>, t: Trace)
    ensures Resume(a, Resume(b, t)) == Resume(a + b, t)
  {
  }

  /** Along any run that did not stop on a failed join, no record left in
      the table is complete. */
  lemma {:induction false} ReplayKeepsIncomplete(frames: Frames, events: seq<Event>)
    requires AllIncomplete(frames)
    ensures var t := Replay(frames, events); t.crashed || AllIncomplete(t.frames)
    decreases |events|
  {
    if events != [] {
      var h := Handle(frames, events[0]);
      match events[0] {
        case TimedOut(now) =>
          SweepKeepsIncomplete(frames, now);
        case Arrived(packet, now) =>
          if |packet| >= HeaderSize {
            IngestKeepsIncomplete(frames, Parse(packet).value, now);
          }
      }
      if !h.stop {
        ReplayKeepsIncomplete(h.frames, events[1..]);
      }
    }
  }

  // ---------------------------------------------------------------------
  // Completion whatever the arrival order

  /** The datagrams of one frame `f` of |ps| chunks, sent in the order of
      chunk ids given by `order`, the k-th arriving at time at[k]. */
  function FrameEvents(f: uint16, ps: seq<Bytes>, order: seq<uint16>, at: seq<real>): (es: seq<Event>)
    requires |ps| < 0x1_0000 && |at| == |order|
    requires forall k | 0 <= k < |order| :: order[k] < |ps|
    ensures |es| == |order|
  {
    seq(|order|, k requires 0 <= k < |order| =>
      Arrived(Encode(Chunk(f, order[k], |ps|, ps[order[k]])), at[k]))
  }

  /** `order` lists every id below n exactly once. */
  ghost predicate IsPermutation(order: seq<uint16>, n: nat)
  {
    && |order| == n
    && (forall k | 0 <= k < |order| :: order[k] < n)
    && (forall j, k | 0 <= j < k < |order| :: order[j] != order[k])
  }

  /** A record holding exactly the chunks order[..k] of ps. */
  ghost predicate HoldsArrived(chunks: map<uint16, Bytes>, ps: seq<Bytes>, order: seq<uint16>, k: nat)
    requires k <= |order|
  {
    && |chunks| == k
    && (forall i :: i in chunks <==> i in order[..k])
    && (forall i | i in chunks :: i < |ps| && chunks[i] == ps[i])
  }

  /** The chunks order[..j] of ps, stored one after the other. */
  ghost function FirstChunks(ps: seq<Bytes>, order: seq<uint16>, j: nat): map<uint16, Bytes>
    requires j <= |order|
    requires forall k | 0 <= k < |order| :: order[k] < |ps|
  {
    if j == 0 then map[] else FirstChunks(ps, order, j - 1)[order[j - 1] := ps[order[j - 1]]]
  }

  /** Distinct ids: the first j arrivals leave j stored chunks, each the
      payload sent under its id. */
  lemma {:induction false} FirstChunksHold(ps: seq<Bytes>, order: seq<uint16>, j: nat)
    requires |ps| < 0x1_0000
    requires IsPermutation(order, |ps|)
    requires j <= |order|
    ensures HoldsArrived(FirstChunks(ps, order, j), ps, order, j)
  {
    if j > 0 {
      FirstChunksHold(ps, order, j - 1);
      assert order[..j] == order[..j - 1] + [order[j - 1]];
      assert order[j - 1] !in order[..j - 1];
    }
  }

  lemma FirstChunksCount(ps: seq<Bytes>, order: seq<uint16>, j: nat)
    requires |ps| < 0x1_0000
    requires IsPermutation(order, |ps|)
    requires j <= |order|
    ensures |FirstChunks(ps, order, j)| == j
  {
    FirstChunksHold(ps, order, j);
  }

  /** Once all n chunks are stored, the ordered join is the payloads in
      index order. */
  lemma AllArrivedJoin(chunks: map<uint16, Bytes>, ps: seq<Bytes>, order: seq<uint16>)
    requires 1 <= |ps| < 0x1_0000
    requires IsPermutation(order, |ps|)
    requires HoldsArrived(chunks, ps, order, |ps|)
    ensures Join(chunks, |ps|) == Joined(Concat(ps))
  {
    var n := |ps|;
    assert order[..n] == order;
    forall i | i in chunks ensures i < n {
      assert i in order;
    }
    FullRange(chunks.Keys, n);
    JoinSpec(chunks, n);
    assert Ordered(chunks, n) == ps;
  }

  /** All n arrivals join to the payloads in index order. */
  lemma FirstChunksJoin(ps: seq<Bytes>, order: seq<uint16>)
    requires 1 <= |ps| < 0x1_0000
    requires IsPermutation(order, |ps|)
    ensures Join(FirstChunks(ps, order, |ps|), |ps|) == Joined(Concat(ps))
  {
    FirstChunksHold(ps, order, |ps|);
    AllArrivedJoin(FirstChunks(ps, order, |ps|), ps, order);
  }

  /** The table after the first j datagrams of FrameEvents: a record of
      the chunks so far while the frame is incomplete, and the table as it
      was before the first and after the last. */
  ghost function Absorbed(frames: Frames, f: uint16, ps: seq<Bytes>, order: seq<uint16>, at: seq<real>, j: nat): Frames
    requires |ps| < 0x1_0000 && |at| == |order| && j <= |order|
    requires forall k | 0 <= k < |order| :: order[k] < |ps|
  {
    if j == 0 || j == |order| then frames
    else frames[f := Record(FirstChunks(ps, order, j), |ps|, at[j - 1])]
  }

  /** A chunk that leaves its record short of the announced count is
      stored. */
  lemma IngestStores(frames: Frames, c: Chunk, now: real)
    requires |Known(frames, c.frameId)[c.chunkId := c.payload]| != c.total
    ensures IngestChunk(frames, c, now) ==
      Step(frames[c.frameId := Record(Known(frames, c.frameId)[c.chunkId := c.payload], c.total, now)], Stored(c.frameId))
  {
  }

  /** A chunk that brings its record to the announced count, with a
      successful join, completes the frame and deletes the record. */
  lemma IngestCompletes(frames: Frames, c: Chunk, now: real, data: Bytes)
    requires |Known(frames, c.frameId)[c.chunkId := c.payload]| == c.total
    requires Join(Known(frames, c.frameId)[c.chunkId := c.payload], c.total) == Joined(data)
    ensures IngestChunk(frames, c, now) == Step(frames - {c.frameId}, Completed(c.frameId, data))
  {
  }

  lemma RemoveAbsent(m: Frames, key: uint16)
    requires key !in m
    ensures m - {key} == m
  {
  }

  lemma UpdateThenRemove(m: Frames, key: uint16, v: Record)
    requires key !in m
    ensures m[key := v] - {key} == m
  {
  }

  lemma UpdateTwice(m: Frames, key: uint16, v: Record, w: Record)
    ensures m[key := v][key := w] == m[key := w]
  {
  }

  /** An arrival before the last is stored beside the earlier ones. */
  lemma ArrivalStored(frames: Frames, f: uint16, ps: seq<Bytes>, order: seq<uint16>, at: seq<real>, j: nat)
    requires 1 <= |ps| < 0x1_0000 && |at| == |order|
    requires IsPermutation(order, |ps|)
    requires f !in frames
    requires j + 1 < |order|
    ensures IngestChunk(Absorbed(frames, f, ps, order, at, j), Chunk(f, order[j], |ps|, ps[order[j]]), at[j]) ==
      Step(Absorbed(frames, f, ps, order, at, j + 1), Stored(f))
  {
    var a := Absorbed(frames, f, ps, order, at, j);
    var c := Chunk(f, order[j], |ps|, ps[order[j]]);
    var rec := Record(FirstChunks(ps, order, j + 1), |ps|, at[j]);
    assert Known(a, f)[c.chunkId := c.payload] == FirstChunks(ps, order, j + 1);
    FirstChunksCount(ps, order, j + 1);
    IngestStores(a, c, at[j]);
    if j > 0 {
      UpdateTwice(frames, f, Record(FirstChunks(ps, order, j), |ps|, at[j - 1]), rec);
    }
  }

  /** The last arrival completes the frame with the in-order join and
      deletes its record. */
  lemma ArrivalCompletes(frames: Frames, f: uint16, ps: seq<Bytes>, order: seq<uint16>, at: seq<real>)
    requires 1 <= |ps| < 0x1_0000 && |at| == |order|
    requires IsPermutation(order, |ps|)
    requires f !in frames
    ensures var j := |ps| - 1;
      IngestChunk(Absorbed(frames, f, ps, order, at, j), Chunk(f, order[j], |ps|, ps[order[j]]), at[j]) ==
        Step(frames, Completed(f, Concat(ps)))
  {
    var j := |ps| - 1;
    var a := Absorbed(frames, f, ps, order, at, j);
    var c := Chunk(f, order[j], |ps|, ps[order[j]]);
    assert Known(a, f)[c.chunkId := c.payload] == FirstChunks(ps, order, |ps|);
    FirstChunksCount(ps, order, |ps|);
    FirstChunksJoin(ps, order);
    IngestCompletes(a, c, at[j], Concat(ps));
    if j > 0 {
      UpdateThenRemove(frames, f, Record(FirstChunks(ps, order, j), |ps|, at[j - 1]));
    } else {
      RemoveAbsent(frames, f);
    }
  }


  /** The j-th arrival as one loop iteration: it goes from the table after
      j arrivals to the table after j + 1, completing the frame exactly
      when it is the last. */
  lemma ArrivalIteration(frames: Frames, f: uint16, ps: seq<Bytes>, order: seq<uint16>, at: seq<real>, j: nat)
    requires 1 <= |ps| < 0x1_0000 && |at| == |order|
    requires IsPermutation(order, |ps|)
    requires f !in frames
    requires j < |order|
    ensures Handle(Absorbed(frames, f, ps, order, at, j), FrameEvents(f, ps, order, at)[j]) ==
      Handled(Absorbed(frames, f, ps, order, at, j + 1), if j + 1 < |ps| then [] else [Concat(ps)], false)
  {
    var c := Chunk(f, order[j], |ps|, ps[order[j]]);
    assert FrameEvents(f, ps, order, at)[j] == Arrived(Encode(c), at[j]);
    if j + 1 < |ps| {
      StoredIteration(frames, f, ps, order, at, j);
    } else {
      CompletingIteration(frames, f, ps, order, at);
    }
  }

  lemma StoredIteration(frames: Frames, f: uint16, ps: seq<Bytes>, order: seq<uint16>, at: seq<real>, j: nat)
    requires 1 <= |ps| < 0x1_0000 && |at| == |order|
    requires IsPermutation(order, |ps|)
    requires f !in frames
    requires j + 1 < |order|
    ensures var c := Chunk(f, order[j], |ps|, ps[order[j]]);
      Handle(Absorbed(frames, f, ps, order, at, j), Arrived(Encode(c), at[j])) ==
        Handled(Absorbed(frames, f, ps, order, at, j + 1), [], false)
  {
    var c := Chunk(f, order[j], |ps|, ps[order[j]]);
    ArrivalStored(frames, f, ps, order, at, j);
    HandleChunk(Absorbed(frames, f, ps, order, at, j), c, at[j], Step(Absorbed(frames, f, ps, order, at, j + 1), Stored(f)));
  }

  lemma CompletingIteration(frames: Frames, f: uint16, ps: seq<Bytes>, order: seq<uint16>, at: seq<real>)
    requires 1 <= |ps| < 0x1_0000 && |at| == |order|
    requires IsPermutation(order, |ps|)
    requires f !in frames
    ensures var j := |ps| - 1; var c := Chunk(f, order[j], |ps|, ps[order[j]]);
      Handle(Absorbed(frames, f, ps, order, at, j), Arrived(Encode(c), at[j])) ==
        Handled(Absorbed(frames, f, ps, order, at, j + 1), [Concat(ps)], false)
  {
    var j := |ps| - 1;
    var c := Chunk(f, order[j], |ps|, ps[order[j]]);
    ArrivalCompletes(frames, f, ps, order, at);
    HandleChunk(Absorbed(frames, f, ps, order, at, j), c, at[j], Step(frames, Completed(f, Concat(ps))));
  }

  /** The tables after 0, 1, ..., n arrivals. */
  ghost function AbsorbedStates(frames: Frames, f: uint16, ps: seq<Bytes>, order: seq<uint16>, at: seq<real>): (r: seq<Frames>)
    requires |ps| < 0x1_0000 && |at| == |order|
    requires forall k | 0 <= k < |order| :: order[k] < |ps|
  {
    seq(|order| + 1, j requires 0 <= j <= |order| => Absorbed(frames, f, ps, order, at, j))
  }

  /** What n arrivals of one frame emit: nothing, then x on the last. */
  function Emitted(n: nat, x: Bytes): (r: seq<seq<Bytes>>)
  {
    seq(n, j requires 0 <= j < n => if j + 1 < n then [] else [x])
  }

  /** Every arrival of FrameEvents is one non-stopping iteration between
      consecutive tables. */
  lemma ArrivalChain(frames: Frames, f: uint16, ps: seq<Bytes>, order: seq<uint16>, at: seq<real>)
    requires 1 <= |ps| < 0x1_0000 && |at| == |order|
    requires IsPermutation(order, |ps|)
    requires f !in frames
    ensures Chained(AbsorbedStates(frames, f, ps, order, at), FrameEvents(f, ps, order, at), Emitted(|ps|, Concat(ps)))
  {
    forall j | 0 <= j < |order|
      ensures Handle(Absorbed(frames, f, ps, order, at, j), FrameEvents(f, ps, order, at)[j]) ==
        Handled(Absorbed(frames, f, ps, order, at, j + 1), if j + 1 < |ps| then [] else [Concat(ps)], false)
    {
      ArrivalIteration(frames, f, ps, order, at, j);
    }
  }

  /** Arrival order does not matter: a frame whose n chunks all arrive, in
      any order, into a table with no record for it is emitted exactly once,
      as the in-order join of its payloads, and leaves the table as it was. */
  lemma AnyOrderCompletes(frames: Frames, f: uint16, ps: seq<Bytes>, order: seq<uint16>, at: seq<real>)
    requires 1 <= |ps| < 0x1_0000 && |at| == |order|
    requires IsPermutation(order, |ps|)
    requires f !in frames
    ensures Replay(frames, FrameEvents(f, ps, order, at)) == Trace(frames, [Concat(ps)], false)
  {
    var states := AbsorbedStates(frames, f, ps, order, at);
    var outs := Emitted(|ps|, Concat(ps));
    ArrivalChain(frames, f, ps, order, at);
    ReplayChain(states, FrameEvents(f, ps, order, at), outs);
    FlattenLast(outs, Concat(ps));
  }
}
