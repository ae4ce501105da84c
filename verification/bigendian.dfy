/**
 Fixed-width big-endian unsigned integers, the encoding behind the
 `struct` formats ">I" and ">Q" used on both channels.
 */
module BigEndian {
  import opened Basics

  /** The `w`-byte big-endian encoding of `n` (most significant byte first). */
  function Encode(n: nat, w: nat): (r: Bytes)
    requires n < Pow256(w)
    ensures |r| == w
    decreases w
  {
    if w == 0 then [] else Encode(n / 256, w - 1) + [n % 256]
  }

  /** The unsigned value of a big-endian byte string. */
  function Decode(bs: Bytes): (r: nat)
    ensures r < Pow256(|bs|)
  {
    if |bs| == 0 then 0 else Decode(bs[..|bs| - 1]) * 256 + bs[|bs| - 1]
  }

  /** Decoding an encoding gives back the number. */
  lemma {:induction false} DecodeEncode(n: nat, w: nat)
    requires n < Pow256(w)
    ensures Decode(Encode(n, w)) == n
    decreases w
  {
    if w > 0 {
      var e := Encode(n, w);
      assert e[..w - 1] == Encode(n / 256, w - 1);
      DecodeEncode(n / 256, w - 1);
    }
  }

  /** Encoding a decoded byte string at its own width gives back the bytes. */
  lemma {:induction false} EncodeDecode(bs: Bytes)
    ensures Encode(Decode(bs), |bs|) == bs
    decreases |bs|
  {
    if |bs| > 0 {
      var init := bs[..|bs| - 1];
      EncodeDecode(init);
      var n := Decode(bs);
      assert n / 256 == Decode(init);
      assert n % 256 == bs[|bs| - 1];
      assert bs == init + [bs[|bs| - 1]];
    }
  }

  /** Equal-width encodings are equal exactly when the numbers are. */
  lemma EncodeInjective(m: nat, n: nat, w: nat)
    requires m < Pow256(w) && n < Pow256(w)
    ensures Encode(m, w) == Encode(n, w) <==> m == n
  {
    if Encode(m, w) == Encode(n, w) {
      DecodeEncode(m, w);
      DecodeEncode(n, w);
    }
  }
}
