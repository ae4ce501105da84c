/**
 The hex text that carries chunk bytes inside JSON control messages:
 `bytes.hex()` on the sending side and `bytes.fromhex()` on the receiving
 side.
 */
module Hex {
  import opened Basics

  /** The lower-case digit for a value below 16. */
  function Digit(v: nat): (c: char)
    requires v < 16
  {
    "0123456789abcdef"[v]
  }

  /** The value of a hex digit in either case, or `None` for any other character. */
  function DigitValue(c: char): (v: Option<nat>)
    ensures v.Some? ==> v.value < 16
  {
    if '0' <= c <= '9' then Some(c as int - '0' as int)
    else if 'a' <= c <= 'f' then Some(c as int - 'a' as int + 10)
    else if 'A' <= c <= 'F' then Some(c as int - 'A' as int + 10)
    else None
  }

  /** `bytes.hex()`: two lower-case digits per byte, high nibble first. */
  function ToHex(bs: Bytes): (s: string)
    ensures |s| == 2 * |bs|
  {
    if |bs| == 0 then []
    else [Digit(bs[0] / 16), Digit(bs[0] % 16)] + ToHex(bs[1..])
  }

  /** `bytes.fromhex()` on text without separators: `None` where Python raises `ValueError`. */
  function FromHex(s: string): (r: Option<Bytes>)
    ensures r.Some? ==> 2 * |r.value| == |s|
    ensures |s| % 2 == 1 ==> r.None?
  {
    if |s| == 0 then Some([])
    else if |s| == 1 then None
    else
      match (DigitValue(s[0]), DigitValue(s[1]), FromHex(s[2..]))
      case (Some(hi), Some(lo), Some(rest)) => Some([hi * 16 + lo] + rest)
      case _ => None
  }

  lemma DigitRoundTrip(v: nat)
    requires v < 16
    ensures DigitValue(Digit(v)) == Some(v)
  {
    var digits := "0123456789abcdef";
    assert digits[v] == Digit(v);
    if v < 10 {
      assert digits[v] as int == '0' as int + v by {
        assert digits[0] == '0' && digits[1] == '1' && digits[2] == '2' && digits[3] == '3'
          && digits[4] == '4' && digits[5] == '5' && digits[6] == '6' && digits[7] == '7'
          && digits[8] == '8' && digits[9] == '9';
      }
    } else {
      assert digits[v] as int == 'a' as int + v - 10 by {
        assert digits[10] == 'a' && digits[11] == 'b' && digits[12] == 'c'
          && digits[13] == 'd' && digits[14] == 'e' && digits[15] == 'f';
      }
    }
  }

  /** Hex text made by the sender always decodes to the original bytes. */
  lemma {:induction false} FromHexToHex(bs: Bytes)
    ensures FromHex(ToHex(bs)) == Some(bs)
  {
    if |bs| > 0 {
      var s := ToHex(bs);
      var hi, lo := bs[0] / 16, bs[0] % 16;
      assert hi * 16 + lo == bs[0];
      assert s == [Digit(hi), Digit(lo)] + ToHex(bs[1..]);
      assert s[0] == Digit(hi) && s[1] == Digit(lo) && s[2..] == ToHex(bs[1..]);
      DigitRoundTrip(hi);
      DigitRoundTrip(lo);
      FromHexToHex(bs[1..]);
      assert FromHex(s) == Some([bs[0]] + bs[1..]);
      assert [bs[0]] + bs[1..] == bs;
    }
  }
}
