/**
 Stream identifiers: `(hash(username) & 0x7FFFFFFF) << 4 | kind`, where the
 low nibble is the stream kind (1 audio, 2 video). Python's `hash()` is a
 per-process salted integer, so it is a parameter (`StringHash`) here.
 For a mask of the form 2^k - 1, Python's `x & mask` on any (also negative)
 integer is `x mod 2^k`, which is Dafny's Euclidean `%`.
 */
module StreamIds {
  import opened Basics
  import UdpPacket

  /** `StreamType`. */
  datatype StreamKind = Audio | Video

  /** The value of a `StreamType` member, which becomes the low nibble. */
  function KindValue(k: StreamKind): (v: nat)
    ensures 1 <= v <= 2
  {
    match k
    case Audio => 1
    case Video => 2
  }

  /** The stream kind a low nibble stands for, if any. */
  function KindOfNibble(n: int): (r: Option<StreamKind>)
    ensures r.Some? <==> n == 1 || n == 2
    ensures r.Some? ==> KindValue(r.value) == n
  {
    if n == 1 then Some(Audio) else if n == 2 then Some(Video) else None
  }

  /** Python's `hash` on strings. */
  type StringHash = string -> int

  /** The masked hash `hash(username) & 0x7FFFFFFF`. */
  function Masked31(h: int): (m: nat)
    ensures m < 0x8000_0000
  {
    h % 0x8000_0000
  }

  /**
   `generate_stream_id` as written. Since the shifted hash has a zero low
   nibble, `<< 4 | kind` is `* 16 + kind`.
   */
  function GenerateStreamId(hash: StringHash, username: string, k: StreamKind): (id: nat)
    ensures id % 16 == KindValue(k)
    ensures 0 < id < 0x8_0000_0000
  {
    Masked31(hash(username)) * 16 + KindValue(k)
  }

  /** The audio and video ids of one user always differ, and neither is the hello id 0. */
  lemma AudioVideoDistinct(hash: StringHash, username: string)
    ensures GenerateStreamId(hash, username, Audio) != GenerateStreamId(hash, username, Video)
    ensures GenerateStreamId(hash, username, Audio) != 0 && GenerateStreamId(hash, username, Video) != 0
  {
  }

  /** The id determines the masked hash and the kind: users whose masked hashes differ never collide. */
  lemma StreamIdInjective(hash: StringHash, u: string, v: string, k: StreamKind, j: StreamKind)
    ensures GenerateStreamId(hash, u, k) == GenerateStreamId(hash, v, j)
        <==> Masked31(hash(u)) == Masked31(hash(v)) && k == j
  {
    var a := GenerateStreamId(hash, u, k);
    var b := GenerateStreamId(hash, v, j);
    assert a / 16 == Masked31(hash(u)) && a % 16 == KindValue(k);
    assert b / 16 == Masked31(hash(v)) && b % 16 == KindValue(j);
  }

  /**
   The width mismatch as written: a user whose masked hash is 2^28 gets an
   audio id of 2^32 + 1, which the u32 `stream_id` header field cannot hold,
   so `UDPPacket.pack` raises for every packet of that stream.
   */
  lemma StreamIdOverflowsHeader(hash: StringHash, username: string, seqNum: nat, timestamp: nat, payload: Bytes)
    requires hash(username) == 0x1000_0000
    ensures GenerateStreamId(hash, username, Audio) == 0x1_0000_0001
    ensures UdpPacket.Pack(UdpPacket.Packet(GenerateStreamId(hash, username, Audio), seqNum, timestamp, payload)).Err?
  {
  }

  /**
   The id with the hash masked to 28 bits, so that it fits the 32-bit
   header field the docstring and the packet format promise.
   */
  function CorrectedStreamId(hash: StringHash, username: string, k: StreamKind): (id: nat)
    ensures id % 16 == KindValue(k)
    ensures 0 < id < U32
  {
    (hash(username) % 0x1000_0000) * 16 + KindValue(k)
  }

  /** Every corrected id can be sent: packing succeeds and unpacking restores the packet. */
  lemma CorrectedStreamIdPacks(hash: StringHash, username: string, k: StreamKind,
                               seqNum: nat, timestamp: nat, payload: Bytes)
    requires seqNum < U32 && timestamp < U64 && |payload| < U32
    ensures var p := UdpPacket.Packet(CorrectedStreamId(hash, username, k), seqNum, timestamp, payload);
            UdpPacket.Pack(p).Ok? && UdpPacket.Unpack(UdpPacket.Pack(p).value) == Some(p)
  {
    UdpPacket.UnpackPack(UdpPacket.Packet(CorrectedStreamId(hash, username, k), seqNum, timestamp, payload));
  }
}
