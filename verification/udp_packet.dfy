/**
 The UDP media packet: a 20-byte big-endian header
   stream_id (u32) | seq_num (u32) | timestamp (u64) | payload_size (u32)
 followed by exactly `payload_size` payload bytes.
 */
module UdpPacket {
  import opened Basics
  import BigEndian

  const HeaderSize: nat := 20

  /** A decoded packet; the fields are Python integers and may be out of range. */
  datatype Packet = Packet(streamId: int, seqNum: int, timestamp: int, payload: Bytes)

  /** `struct.pack` raises `struct.error` for a value outside its field. */
  datatype PackError = StructError

  lemma FieldRanges()
    ensures Pow256(4) == U32 && Pow256(8) == U64
  {
    assert Pow256(2) == 65536;
    assert Pow256(4) == 256 * (256 * Pow256(2));
    assert Pow256(6) == 256 * (256 * Pow256(4));
    assert Pow256(8) == 256 * (256 * Pow256(6));
  }

  /** Every header field fits its `struct` format ">IIQI". */
  predicate Packable(p: Packet) {
    && 0 <= p.streamId < U32
    && 0 <= p.seqNum < U32
    && 0 <= p.timestamp < U64
    && |p.payload| < U32
  }

  /** The big-endian header of a packable packet (`payload_size` is `len(payload)`). */
  function Header(p: Packet): (h: Bytes)
    requires Packable(p)
    ensures |h| == HeaderSize
  {
    FieldRanges();
    BigEndian.Encode(p.streamId, 4) + BigEndian.Encode(p.seqNum, 4)
    + BigEndian.Encode(p.timestamp, 8) + BigEndian.Encode(|p.payload|, 4)
  }

  /** `UDPPacket.pack`: header followed by the payload, or the `struct.error` it raises. */
  function Pack(p: Packet): (r: Result<Bytes, PackError>)
    ensures r.Ok? <==> Packable(p)
    ensures r.Ok? ==> |r.value| == HeaderSize + |p.payload|
    ensures r.Ok? ==> r.value[HeaderSize..] == p.payload
    ensures r.Ok? ==> BigEndian.Decode(r.value[16..20]) == |p.payload|
  {
    if Packable(p) then
      var h := Header(p);
      FieldRanges();
      BigEndian.DecodeEncode(|p.payload|, 4);
      assert (h + p.payload)[16..20] == BigEndian.Encode(|p.payload|, 4);
      Ok(h + p.payload)
    else Err(StructError)
  }

  /** `UDPPacket.unpack`: `None` for a short datagram or a size mismatch. */
  function Unpack(data: Bytes): (r: Option<Packet>)
    ensures |data| < HeaderSize ==> r.None?
    ensures |data| >= HeaderSize ==>
      (r.Some? <==> BigEndian.Decode(data[16..20]) == |data| - HeaderSize)
    ensures r.Some? ==> r.value.payload == data[HeaderSize..] && Packable(r.value)
  {
    if |data| < HeaderSize then None
    else
      var streamId := BigEndian.Decode(data[0..4]);
      var seqNum := BigEndian.Decode(data[4..8]);
      var timestamp := BigEndian.Decode(data[8..16]);
      var size := BigEndian.Decode(data[16..20]);
      FieldRanges();
      if |data| - HeaderSize != size then None
      else Some(Packet(streamId, seqNum, timestamp, data[HeaderSize..]))
  }

  /** Unpacking a packed packet gives the packet back. */
  lemma UnpackPack(p: Packet)
    requires Packable(p)
    ensures Pack(p).Ok? && Unpack(Pack(p).value) == Some(p)
  {
    FieldRanges();
    var data := Pack(p).value;
    var h := Header(p);
    assert data == h + p.payload;
    assert data[0..4] == BigEndian.Encode(p.streamId, 4);
    assert data[4..8] == BigEndian.Encode(p.seqNum, 4);
    assert data[8..16] == BigEndian.Encode(p.timestamp, 8);
    BigEndian.DecodeEncode(p.streamId, 4);
    BigEndian.DecodeEncode(p.seqNum, 4);
    BigEndian.DecodeEncode(p.timestamp, 8);
  }

  /** Every datagram `unpack` accepts is exactly what `pack` makes of its result. */
  lemma PackUnpack(data: Bytes)
    requires Unpack(data).Some?
    ensures Pack(Unpack(data).value) == Ok(data)
  {
    FieldRanges();
    var p := Unpack(data).value;
    BigEndian.EncodeDecode(data[0..4]);
    BigEndian.EncodeDecode(data[4..8]);
    BigEndian.EncodeDecode(data[8..16]);
    BigEndian.EncodeDecode(data[16..20]);
    assert data == data[0..4] + data[4..8] + data[8..16] + data[16..20] + data[HeaderSize..];
  }
}
