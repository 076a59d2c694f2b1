/** The datagram wire format shared by every receiver: a 6-byte header of
    three little-endian unsigned 16-bit fields (frame id, chunk id, chunk
    count), followed by the payload. Also the byte-sequence helpers used to
    state what a reassembled frame contains. */
module Wire {

  type byte = x: int | 0 <= x < 0x100
  type uint16 = x: int | 0 <= x < 0x1_0000
  type Bytes = seq<byte>

  datatype Option<T> = None | Some(value: T)

  /** struct.calcsize('<HHH') */
  const HeaderSize: nat := 6

  /** One decoded datagram. */
  datatype Chunk = Chunk(frameId: uint16, chunkId: uint16, total: uint16, payload: Bytes)

  function LittleEndian(lo: byte, hi: byte): (x: uint16)
  {
    lo + 0x100 * hi
  }

  /** struct.unpack('<HHH', packet[:6]) and packet[6:]; a datagram shorter
      than the header has no header (the scripts either skip it or crash). */
  function Parse(packet: Bytes): (r: Option<Chunk>)
    ensures r.Some? <==> |packet| >= HeaderSize
    ensures r.Some? ==> r.value.payload == packet[HeaderSize..]
  {
    if |packet| < HeaderSize then None
    else Some(Chunk(LittleEndian(packet[0], packet[1]),
                    LittleEndian(packet[2], packet[3]),
                    LittleEndian(packet[4], packet[5]),
                    packet[HeaderSize..]))
  }

  function EncodeU16(x: uint16): (r: Bytes)
  {
    [x % 0x100, x / 0x100]
  }

  /** What a sender puts on the wire for a chunk. */
  function Encode(c: Chunk): (r: Bytes)
    ensures |r| == HeaderSize + |c.payload|
    ensures r[HeaderSize..] == c.payload
  {
    EncodeU16(c.frameId) + EncodeU16(c.chunkId) + EncodeU16(c.total) + c.payload
  }

  lemma LittleEndianSplit(lo: byte, hi: byte)
    ensures EncodeU16(LittleEndian(lo, hi)) == [lo, hi]
  {
    var x := LittleEndian(lo, hi);
    assert x == hi * 0x100 + lo;
    assert x / 0x100 == hi && x % 0x100 == lo;
  }

  /** Parsing undoes encoding: any three 16-bit fields and any payload
      come back exactly. */
  lemma ParseEncode(c: Chunk)
    ensures Parse(Encode(c)) == Some(c)
  {
    var e := Encode(c);
    assert e[0] == c.frameId % 0x100 && e[1] == c.frameId / 0x100;
    assert e[2] == c.chunkId % 0x100 && e[3] == c.chunkId / 0x100;
    assert e[4] == c.total % 0x100 && e[5] == c.total / 0x100;
  }

  /** Encoding undoes parsing: a datagram that has a header is exactly its
      header fields followed by its payload. */
  lemma EncodeParse(packet: Bytes)
    requires |packet| >= HeaderSize
    ensures Parse(packet).Some? && Encode(Parse(packet).value) == packet
  {
    var c := Parse(packet).value;
    LittleEndianSplit(packet[0], packet[1]);
    LittleEndianSplit(packet[2], packet[3]);
    LittleEndianSplit(packet[4], packet[5]);
    assert packet == packet[..2] + packet[2..4] + packet[4..6] + packet[HeaderSize..];
  }

  /** b''.join(ps): the payloads in order. */
  function Concat(ps: seq<Bytes>): (r: Bytes)
  {
    if ps == [] then [] else Concat(ps[..|ps| - 1]) + ps[|ps| - 1]
  }

  /** bytearray(n): n zero bytes. */
  function Zeros(n: nat): (r: Bytes)
  {
    seq(n, _ => 0)
  }

  /** Each payload of an ordered join sits right after the ones before it:
      the start of ps[i] is the total length of ps[..i]. */
  lemma {:induction false} ConcatAt(ps: seq<Bytes>, i: nat)
    requires i < |ps|
    ensures |Concat(ps[..i])| + |ps[i]| <= |Concat(ps)|
    ensures Concat(ps)[|Concat(ps[..i])|..|Concat(ps[..i])| + |ps[i]|] == ps[i]
  {
    var n := |ps|;
    assert ps[..n - 1] == ps[..n][..n - 1];
    if i == n - 1 {
      assert ps[..i] == ps[..n - 1];
    } else {
      var front := ps[..n - 1];
      assert front[..i] == ps[..i] && front[i] == ps[i];
      ConcatAt(front, i);
      assert Concat(ps) == Concat(front) + ps[n - 1];
    }
  }
}
