/**
 TCP control-channel framing: a 4-byte big-endian length followed by that
 many bytes of JSON text. The JSON text itself is opaque here.
 */
module Framing {
  import opened Basics
  import BigEndian
  import UdpPacket

  /** `struct.pack(">I", n)` raises for a body of 2^32 bytes or more. */
  datatype FrameError = LengthOverflow

  /** One frame: the length prefix and the body. */
  function Frame(body: Bytes): (r: Bytes)
    requires |body| < U32
    ensures |r| == 4 + |body| && r[4..] == body
  {
    UdpPacket.FieldRanges();
    BigEndian.Encode(|body|, 4) + body
  }

  /** `serialize_message`, with the JSON text already encoded as `body`. */
  function Serialize(body: Bytes): (r: Result<Bytes, FrameError>)
    ensures r.Ok? <==> |body| < U32
    ensures r.Ok? ==> r.value == Frame(body)
  {
    if |body| < U32 then Ok(Frame(body)) else Err(LengthOverflow)
  }

  /** The length announced by the first four bytes. */
  function Announced(data: Bytes): (n: nat)
    requires |data| >= 4
    ensures n < U32
  {
    UdpPacket.FieldRanges();
    BigEndian.Decode(data[..4])
  }

  /** `deserialize_message`: the body of the leading frame, trailing bytes ignored. */
  function Deserialize(data: Bytes): (r: Option<Bytes>)
    ensures |data| < 4 ==> r.None?
    ensures |data| >= 4 ==> (r.Some? <==> |data| >= 4 + Announced(data))
    ensures r.Some? ==> |r.value| == Announced(data) && data[..4 + |r.value|] == Frame(r.value)
  {
    if |data| < 4 then None
    else
      var n := Announced(data);
      if |data| < 4 + n then None
      else
        UdpPacket.FieldRanges();
        BigEndian.EncodeDecode(data[..4]);
        assert data[..4 + n] == data[..4] + data[4..4 + n];
        Some(data[4..4 + n])
  }

  /** Deserializing a serialized body recovers it, whatever follows it in the buffer. */
  lemma DeserializeSerialize(body: Bytes, rest: Bytes)
    requires |body| < U32
    ensures Serialize(body).Ok?
    ensures Deserialize(Serialize(body).value + rest) == Some(body)
  {
    UdpPacket.FieldRanges();
    var data := Frame(body) + rest;
    assert data[..4] == BigEndian.Encode(|body|, 4);
    BigEndian.DecodeEncode(|body|, 4);
    assert data[4..4 + |body|] == body;
  }

  /** A buffer that does not yet hold a whole frame. */
  predicate Incomplete(buffer: Bytes) {
    |buffer| < 4 || |buffer| < 4 + Announced(buffer)
  }

  /** Every body fits a frame. */
  predicate Frameable(bodies: seq<Bytes>) {
    forall i :: 0 <= i < |bodies| ==> |bodies[i]| < U32
  }

  /** The frames of `bodies`, back to back. */
  function FrameAll(bodies: seq<Bytes>): (r: Bytes)
    requires Frameable(bodies)
  {
    if |bodies| == 0 then [] else Frame(bodies[0]) + FrameAll(bodies[1..])
  }

  /**
   The receive-buffer loop shared by the server's and the client's TCP
   readers: peel off every complete frame and keep the remainder for the
   next `recv`.
   */
  function SplitFrames(buffer: Bytes): (r: (seq<Bytes>, Bytes))
    ensures Frameable(r.0)
    ensures FrameAll(r.0) + r.1 == buffer
    ensures Incomplete(r.1)
    decreases |buffer|
  {
    match Deserialize(buffer)
    case None => ([], buffer)
    case Some(body) =>
      var tail := buffer[4 + |body|..];
      var (bodies, rest) := SplitFrames(tail);
      PeelFrame(buffer, body, tail, bodies, rest);
      ([body] + bodies, rest)
  }

  /** One more frame in front of a split stream. */
  lemma PeelFrame(buffer: Bytes, body: Bytes, tail: Bytes, bodies: seq<Bytes>, rest: Bytes)
    requires |body| < U32 && 4 + |body| <= |buffer| && buffer[..4 + |body|] == Frame(body)
    requires tail == buffer[4 + |body|..]
    requires Frameable(bodies) && FrameAll(bodies) + rest == tail
    ensures Frameable([body] + bodies) && FrameAll([body] + bodies) + rest == buffer
  {
    var all := [body] + bodies;
    assert all[0] == body && all[1..] == bodies;
    assert Frameable(all);
    assert FrameAll(all) == Frame(body) + FrameAll(bodies);
    calc {
      FrameAll(all) + rest;
      Frame(body) + (FrameAll(bodies) + rest);
      buffer[..4 + |body|] + buffer[4 + |body|..];
      buffer;
    }
  }

  /**
   Framing a sequence of bodies and splitting the stream again gives the
   bodies back, with any incomplete tail held over untouched.
   */
  lemma {:induction false} SplitFrameAll(bodies: seq<Bytes>, partial: Bytes)
    requires Frameable(bodies) && Incomplete(partial)
    ensures SplitFrames(FrameAll(bodies) + partial) == (bodies, partial)
    decreases |bodies|
  {
    if |bodies| == 0 {
      assert FrameAll(bodies) + partial == partial;
    } else {
      var b := bodies[0];
      var tail := FrameAll(bodies[1..]) + partial;
      assert FrameAll(bodies) + partial == Frame(b) + tail;
      DeserializeSerialize(b, tail);
      assert (Frame(b) + tail)[4 + |b|..] == tail;
      SplitFrameAll(bodies[1..], partial);
      assert [b] + bodies[1..] == bodies;
    }
  }
}
