/** What the two strictly sequential readers (receive.py and custom.py)
    share: the stream of datagrams they read, why a run of theirs ends, the
    size rule on chunks, and the zero-filled frame buffer that the chunks
    are written into at consecutive offsets by slice assignment. */
module Sequential {
  import opened Wire

  /** One datagram delivered by the socket. `queued` says whether it had
      already arrived when the reader, having just taken the datagram
      before it, issued the next non-blocking read; the order and timing of
      arrivals is otherwise outside the model. */
  datatype Datagram = Datagram(bytes: Bytes, queued: bool)

  /** Why a run of a reader ends.
      EndOfStream: no datagram arrives any more, so the next blocking read
      (or busy wait) never returns.
      ShortDatagram(at): struct.unpack raises on the datagram at index
      `at`, which is shorter than the header; nothing catches it.
      Stalled(at): the outer loop goes round forever without reading,
      reprocessing the same chunk 0 (only custom.py); `at` is the index of
      the next unread datagram.
      Quit: 'q' was pressed while a frame was on screen (only custom.py).
      ShowFailed: cv2.imshow raised on a completed buffer that cv2.imdecode
      could not decode (only custom.py). */
  datatype Stop = EndOfStream | ShortDatagram(at: nat) | Stalled(at: nat) | Quit | ShowFailed

  /** The size rule for chunk i of a frame of `total` chunks: the final
      chunk holds at most `size` bytes, every other exactly `size`. */
  predicate SizeOk(i: nat, total: nat, len: nat, size: nat)
  {
    if i + 1 == total then len <= size else len == size
  }

  /** bytearray(total * size) after the payloads ps were written one after
      the other from offset 0: the payloads, then zero padding. */
  function Image(ps: seq<Bytes>, size: nat, total: nat): (r: Bytes)
    requires |Concat(ps)| <= size * total
    ensures |r| == size * total
  {
    Concat(ps) + Zeros(size * total - |Concat(ps)|)
  }

  /** jpeg_buffer[offset:offset + len(data)] = data, for a slice inside the
      buffer: the bytes before and after the slice are kept and the length
      does not change. */
  method WriteSlice(buffer: array<byte>, offset: nat, data: Bytes)
    requires offset + |data| <= buffer.Length
    modifies buffer
    ensures buffer[..] == old(buffer[..])[..offset] + data + old(buffer[..])[offset + |data|..]
  {
    for k := 0 to |data|
      invariant forall t | 0 <= t < buffer.Length ::
        buffer[t] == if offset <= t < offset + k then data[t - offset] else old(buffer[t])
    {
      buffer[offset + k] := data[k];
    }
    assert buffer[..] == old(buffer[..])[..offset] + data + old(buffer[..])[offset + |data|..];
  }

  /** Payloads of exactly `size` bytes each add up to size times their
      number. */
  lemma {:induction false} ConcatFull(ps: seq<Bytes>, size: nat)
    requires forall i | 0 <= i < |ps| :: |ps[i]| == size
    ensures |Concat(ps)| == size * |ps|
  {
    if ps != [] {
      var front := ps[..|ps| - 1];
      assert forall i | 0 <= i < |front| :: front[i] == ps[i];
      ConcatFull(front, size);
      MulStep(size, |front|);
    }
  }

  lemma MulStep(size: nat, n: nat)
    ensures size * (n + 1) == size * n + size
  {
  }

  /** Writing the next payload at offset size * |ps| into the buffer that
      holds ps gives the buffer that holds ps + [p]. */
  lemma WriteNext(ps: seq<Bytes>, p: Bytes, size: nat, total: nat)
    requires forall i | 0 <= i < |ps| :: |ps[i]| == size
    requires |ps| < total && |p| <= size
    ensures |Concat(ps)| == size * |ps| && |Concat(ps + [p])| <= size * total
    ensures var img := Image(ps, size, total); var offset := size * |ps|;
      offset + |p| <= |img| &&
      img[..offset] + p + img[offset + |p|..] == Image(ps + [p], size, total)
  {
    ConcatFull(ps, size);
    var offset := size * |ps|;
    assert (ps + [p])[..|ps|] == ps;
    assert Concat(ps + [p]) == Concat(ps) + p;
    NextOffset(|ps|, total, size);
    var img := Image(ps, size, total);
    assert img[..offset] == Concat(ps);
    assert img[offset + |p|..] == Zeros(size * total - offset - |p|);
  }

  /** The slot after the first i of `total` slots of `size` bytes ends
      inside the buffer. */
  lemma {:induction false} NextOffset(i: nat, total: nat, size: nat)
    requires i < total
    ensures size * i + size <= size * total
    decreases total - i
  {
    MulStep(size, i);
    if i + 1 < total {
      NextOffset(i + 1, total, size);
    }
  }

  /** The layout of a delivered frame of n >= 1 chunks that obey the size
      rule: the buffer is n * size bytes, chunk i sits at offset size * i,
      the first size * (n - 1) + |last chunk| bytes are the chunks in order
      and every byte after them is zero. */
  lemma FrameLayout(ps: seq<Bytes>, size: nat)
    requires |ps| >= 1
    requires forall i | 0 <= i < |ps| :: SizeOk(i, |ps|, |ps[i]|, size)
    ensures |Concat(ps)| == size * (|ps| - 1) + |ps[|ps| - 1]| <= size * |ps|
    ensures |Image(ps, size, |ps|)| == size * |ps|
    ensures Image(ps, size, |ps|)[..|Concat(ps)|] == Concat(ps)
    ensures forall t | |Concat(ps)| <= t < size * |ps| :: Image(ps, size, |ps|)[t] == 0
    ensures forall i | 0 <= i < |ps| ::
      size * i + |ps[i]| <= size * |ps| && Image(ps, size, |ps|)[size * i..size * i + |ps[i]|] == ps[i]
  {
    FrameLength(ps, size);
    FrameChunks(ps, size);
  }

  /** n >= 1 chunks that obey the size rule fill size * (n - 1) bytes and
      then the final chunk's. */
  lemma FrameLength(ps: seq<Bytes>, size: nat)
    requires |ps| >= 1
    requires forall i | 0 <= i < |ps| :: SizeOk(i, |ps|, |ps[i]|, size)
    ensures |Concat(ps)| == size * (|ps| - 1) + |ps[|ps| - 1]| <= size * |ps|
  {
    var n := |ps|;
    var front := ps[..n - 1];
    assert forall k | 0 <= k < |front| :: front[k] == ps[k] && |front[k]| == size;
    ConcatFull(front, size);
    assert Concat(ps) == Concat(front) + ps[n - 1];
    NextOffset(n - 1, n, size);
  }

  /** Every chunk of a frame that obeys the size rule sits at its offset. */
  lemma FrameChunks(ps: seq<Bytes>, size: nat)
    requires forall i | 0 <= i < |ps| :: SizeOk(i, |ps|, |ps[i]|, size)
    requires |Concat(ps)| <= size * |ps|
    ensures forall i | 0 <= i < |ps| ::
      size * i + |ps[i]| <= size * |ps| && Image(ps, size, |ps|)[size * i..size * i + |ps[i]|] == ps[i]
  {
    forall i | 0 <= i < |ps|
      ensures size * i + |ps[i]| <= size * |ps| && Image(ps, size, |ps|)[size * i..size * i + |ps[i]|] == ps[i]
    {
      ImageChunk(ps, size, i);
    }
  }

  /** Chunk i, after i full ones, sits at offset size * i. */
  lemma ImageChunk(ps: seq<Bytes>, size: nat, i: nat)
    requires i < |ps| && forall k | 0 <= k < i :: |ps[k]| == size
    requires |Concat(ps)| <= size * |ps|
    ensures size * i + |ps[i]| <= |Concat(ps)|
    ensures Image(ps, size, |ps|)[size * i..size * i + |ps[i]|] == ps[i]
  {
    ConcatAt(ps, i);
    assert forall k | 0 <= k < i :: ps[..i][k] == ps[k];
    ConcatFull(ps[..i], size);
  }
}
